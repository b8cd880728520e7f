// Digits 0, 1, 2 in pairs of machine words: bit k of the first word marks a 1, of the second a 2.
module TernaryWords {

  // A machine word, kept apart from the solver's words except where single bits are computed.
  datatype Word = Word(bits: bv64)

  const Zero: Word := Word(0)
  const Lowest: Word := Word(1)
  const Top: Word := Word(0x8000_0000_0000_0000)
  const Rest: Word := Word(0x7fff_ffff_ffff_ffff)

  // Word operations under names, so that proofs about single bits need not reason about words.
  function Or(x: Word, y: Word): Word { Word(x.bits | y.bits) }
  function And(x: Word, y: Word): Word { Word(x.bits & y.bits) }
  function Xor(x: Word, y: Word): Word { Word(x.bits ^ y.bits) }
  function Down(x: Word): Word { Word(x.bits >> 1) }
  function Up(x: Word): Word { Word(x.bits << 1) }
  function Down8(x: Word): Word { Word(x.bits >> 8) }

  predicate Odd(x: Word)
  {
    x.bits & 1 != 0
  }

  // Bit k, that is x & (1 << k).
  predicate Bit(x: Word, k: nat)
    decreases k
  {
    if k == 0 then Odd(x) else Bit(Down(x), k - 1)
  }

  // 1 << k
  function Mask(k: nat): Word
  {
    if k == 0 then Lowest else Up(Mask(k - 1))
  }

  // ---------------------------------------------------------------- word facts

  lemma OrFacts(x: Word, y: Word)
    ensures Odd(Or(x, y)) <==> Odd(x) || Odd(y)
    ensures Down(Or(x, y)) == Or(Down(x), Down(y))
  {
    hide *;
    OrOdd(x, y);
    OrDown(x, y);
  }

  lemma OrOdd(x: Word, y: Word)
    ensures Odd(Or(x, y)) <==> Odd(x) || Odd(y)
  {
  }

  lemma OrDown(x: Word, y: Word)
    ensures Down(Or(x, y)) == Or(Down(x), Down(y))
  {
  }

  lemma AndFacts(x: Word, y: Word)
    ensures Odd(And(x, y)) <==> Odd(x) && Odd(y)
    ensures Down(And(x, y)) == And(Down(x), Down(y))
  {
    hide *;
    AndOdd(x, y);
    AndDown(x, y);
  }

  lemma AndOdd(x: Word, y: Word)
    ensures Odd(And(x, y)) <==> Odd(x) && Odd(y)
  {
  }

  lemma AndDown(x: Word, y: Word)
    ensures Down(And(x, y)) == And(Down(x), Down(y))
  {
  }

  lemma XorFacts(x: Word, y: Word)
    ensures Odd(Xor(x, y)) <==> Odd(x) != Odd(y)
    ensures Down(Xor(x, y)) == Xor(Down(x), Down(y))
  {
    hide *;
    XorOdd(x, y);
    XorDown(x, y);
  }

  lemma XorOdd(x: Word, y: Word)
    ensures Odd(Xor(x, y)) <==> Odd(x) != Odd(y)
  {
  }

  lemma XorDown(x: Word, y: Word)
    ensures Down(Xor(x, y)) == Xor(Down(x), Down(y))
  {
  }

  lemma ConstantFacts()
    ensures !Odd(Zero) && Down(Zero) == Zero && Odd(Lowest) && Down(Lowest) == Zero && And(Top, Rest) == Zero
  {
  }

  lemma UpFacts(x: Word)
    ensures !Odd(Up(x)) && Down(Up(x)) == And(x, Rest)
  {
  }

  lemma EightDowns(x: Word)
    ensures Down(Down(Down(Down(Down(Down(Down(Down(x)))))))) == Down8(x)
  {
  }

  lemma EightBytes(x: Word)
    ensures Down8(Down8(Down8(Down8(Down8(Down8(Down8(Down8(x)))))))) == Zero
  {
  }

  lemma OddByte(x: Word)
    requires x.bits & 0xff == 0xff
    ensures Odd(x) && Odd(Down(x)) && Odd(Down(Down(x))) && Odd(Down(Down(Down(x)))) && Odd(Down(Down(Down(Down(x)))))
    ensures Odd(Down(Down(Down(Down(Down(x)))))) && Odd(Down(Down(Down(Down(Down(Down(x)))))))
  {
  }

  lemma OddByteTop(x: Word)
    requires x.bits & 0xff == 0xff
    ensures Odd(Down(Down(Down(Down(Down(Down(Down(x))))))))
  {
  }

  // ---------------------------------------------------------------- bits of word operations

  lemma {:induction false} BitStep(x: Word, k: nat)
    ensures Bit(x, k + 1) == Bit(Down(x), k) && Bit(x, 0) == Odd(x)
  {
  }

  lemma {:induction false} OrAt(x: Word, y: Word, k: nat)
    ensures Bit(Or(x, y), k) <==> Bit(x, k) || Bit(y, k)
    decreases k
  {
    hide Or, Odd, Down;
    OrFacts(x, y);
    if k > 0 { OrAt(Down(x), Down(y), k - 1); }
  }

  lemma {:induction false} AndAt(x: Word, y: Word, k: nat)
    ensures Bit(And(x, y), k) <==> Bit(x, k) && Bit(y, k)
    decreases k
  {
    hide And, Odd, Down;
    AndFacts(x, y);
    if k > 0 { AndAt(Down(x), Down(y), k - 1); }
  }

  lemma {:induction false} XorAt(x: Word, y: Word, k: nat)
    ensures Bit(Xor(x, y), k) <==> Bit(x, k) != Bit(y, k)
    decreases k
  {
    hide Xor, Odd, Down;
    XorFacts(x, y);
    if k > 0 { XorAt(Down(x), Down(y), k - 1); }
  }

  lemma {:induction false} ZeroAt(k: nat)
    ensures !Bit(Zero, k)
  {
    hide Odd, Down;
    ConstantFacts();
    if k > 0 { ZeroAt(k - 1); }
  }

  lemma {:induction false} ByteStep(x: Word, k: nat)
    ensures Bit(x, k + 8) == Bit(Down8(x), k)
  {
    hide Odd, Down, Down8, Bit;
    var x1 := Down(x);
    var x2 := Down(x1);
    var x3 := Down(x2);
    var x4 := Down(x3);
    var x5 := Down(x4);
    var x6 := Down(x5);
    var x7 := Down(x6);
    BitStep(x, k + 7);
    BitStep(x1, k + 6);
    BitStep(x2, k + 5);
    BitStep(x3, k + 4);
    BitStep(x4, k + 3);
    BitStep(x5, k + 2);
    BitStep(x6, k + 1);
    BitStep(x7, k);
    EightDowns(x);
  }

  // There are 64 bits.
  lemma {:induction false} NoHighBit(x: Word)
    ensures !Bit(x, 64)
  {
    hide Odd, Down, Down8, Bit;
    var x1 := Down8(x);
    var x2 := Down8(x1);
    var x3 := Down8(x2);
    var x4 := Down8(x3);
    var x5 := Down8(x4);
    var x6 := Down8(x5);
    var x7 := Down8(x6);
    ByteStep(x, 56);
    ByteStep(x1, 48);
    ByteStep(x2, 40);
    ByteStep(x3, 32);
    ByteStep(x4, 24);
    ByteStep(x5, 16);
    ByteStep(x6, 8);
    ByteStep(x7, 0);
    EightBytes(x);
    ZeroAt(0);
  }

  ghost predicate LowOnes(x: Word, n: nat)
    decreases n
  {
    n == 0 || (Odd(x) && LowOnes(Down(x), n - 1))
  }

  lemma {:induction false} OnesAt(x: Word, n: nat, k: nat)
    requires LowOnes(x, n) && k < n
    ensures Bit(x, k)
    decreases k
  {
    hide Odd, Down;
    if k > 0 { OnesAt(Down(x), n - 1, k - 1); }
  }

  lemma OnesStep(x: Word, n: nat)
    ensures LowOnes(x, 0) && LowOnes(x, n + 1) == (Odd(x) && LowOnes(Down(x), n))
  {
  }

  lemma {:induction false} FullByte(x: Word, k: nat)
    requires x.bits & 0xff == 0xff && k < 8
    ensures Bit(x, k)
  {
    hide Odd, Down, Bit, LowOnes;
    OddByte(x);
    OddByteTop(x);
    SevenOnes(x);
    SevenOnes(Down(x));
    OnesStep(x, 7);
    OnesAt(x, 8, k);
  }

  lemma {:induction false} SevenOnes(x: Word)
    requires Odd(x) && Odd(Down(x)) && Odd(Down(Down(x))) && Odd(Down(Down(Down(x)))) && Odd(Down(Down(Down(Down(x)))))
    requires Odd(Down(Down(Down(Down(Down(x)))))) && Odd(Down(Down(Down(Down(Down(Down(x)))))))
    ensures LowOnes(x, 7)
  {
    hide Odd, Down, LowOnes;
    var x1 := Down(x);
    var x2 := Down(x1);
    var x3 := Down(x2);
    var x4 := Down(x3);
    var x5 := Down(x4);
    var x6 := Down(x5);
    OnesStep(x, 6);
    OnesStep(x1, 5);
    OnesStep(x2, 4);
    OnesStep(x3, 3);
    OnesStep(x4, 2);
    OnesStep(x5, 1);
    OnesStep(x6, 0);
    OnesStep(Down(x6), 0);
  }

  lemma {:induction false} LowByte(x: Word, k: nat)
    requires x.bits & 0x7f == 0x7f && k < 7
    ensures Bit(x, k)
  {
    hide Odd, Down, Bit, LowOnes;
    SevenOdd(x);
    SevenOnes(x);
    OnesAt(x, 7, k);
  }

  lemma SevenOdd(x: Word)
    requires x.bits & 0x7f == 0x7f
    ensures Odd(x) && Odd(Down(x)) && Odd(Down(Down(x))) && Odd(Down(Down(Down(x)))) && Odd(Down(Down(Down(Down(x)))))
    ensures Odd(Down(Down(Down(Down(Down(x)))))) && Odd(Down(Down(Down(Down(Down(Down(x)))))))
  {
  }

  lemma RestBytes()
    ensures Down8(Rest) == Word(0x7f_ffff_ffff_ffff) && Down8(Word(0x7f_ffff_ffff_ffff)) == Word(0x7fff_ffff_ffff)
    ensures Down8(Word(0x7fff_ffff_ffff)) == Word(0x7f_ffff_ffff) && Down8(Word(0x7f_ffff_ffff)) == Word(0x7fff_ffff)
    ensures Down8(Word(0x7fff_ffff)) == Word(0x7f_ffff) && Down8(Word(0x7f_ffff)) == Word(0x7fff) && Down8(Word(0x7fff)) == Word(0x7f)
  {
  }

  // All bits below the top are set in Rest.
  lemma {:induction false} RestAt(k: nat)
    requires k < 63
    ensures Bit(Rest, k)
  {
    RestBytes();
    hide Odd, Down, Down8, Bit;
    if k < 8 { FullByte(Rest, k); }
    else {
      ByteStep(Rest, k - 8);
      if k < 16 { FullByte(Word(0x7f_ffff_ffff_ffff), k - 8); }
      else {
        ByteStep(Word(0x7f_ffff_ffff_ffff), k - 16);
        if k < 24 { FullByte(Word(0x7fff_ffff_ffff), k - 16); }
        else {
          ByteStep(Word(0x7fff_ffff_ffff), k - 24);
          if k < 32 { FullByte(Word(0x7f_ffff_ffff), k - 24); }
          else {
            ByteStep(Word(0x7f_ffff_ffff), k - 32);
            if k < 40 { FullByte(Word(0x7fff_ffff), k - 32); }
            else {
              ByteStep(Word(0x7fff_ffff), k - 40);
              if k < 48 { FullByte(Word(0x7f_ffff), k - 40); }
              else {
                ByteStep(Word(0x7f_ffff), k - 48);
                if k < 56 { FullByte(Word(0x7fff), k - 48); }
                else { ByteStep(Word(0x7fff), k - 56); LowByte(Word(0x7f), k - 56); }
              }
            }
          }
        }
      }
    }
  }

  lemma TopBytes()
    ensures Down8(Down8(Down8(Down8(Down8(Down8(Down8(Top))))))) == Word(0x80) && Odd(Down(Down(Down(Down(Down(Down(Down(Word(0x80)))))))))
  {
  }

  lemma {:induction false} TopAt(k: nat)
    requires k <= 63
    ensures Bit(Top, k) == (k == 63)
  {
    if k < 63 {
      hide Odd, Down, Bit, And;
      RestAt(k);
      ConstantFacts();
      AndAt(Top, Rest, k);
      ZeroAt(k);
    } else {
      TopBit();
    }
  }

  lemma {:induction false} TopBit()
    ensures Bit(Top, 63)
  {
    hide Odd, Down, Down8, Bit;
    TopBytes();
    var x1 := Down8(Top);
    var x2 := Down8(x1);
    var x3 := Down8(x2);
    var x4 := Down8(x3);
    var x5 := Down8(x4);
    var x6 := Down8(x5);
    ByteStep(Top, 55);
    ByteStep(x1, 47);
    ByteStep(x2, 39);
    ByteStep(x3, 31);
    ByteStep(x4, 23);
    ByteStep(x5, 15);
    ByteStep(x6, 7);
    var y := Word(0x80);
    var y1 := Down(y);
    var y2 := Down(y1);
    var y3 := Down(y2);
    var y4 := Down(y3);
    var y5 := Down(y4);
    var y6 := Down(y5);
    BitStep(y, 6);
    BitStep(y1, 5);
    BitStep(y2, 4);
    BitStep(y3, 3);
    BitStep(y4, 2);
    BitStep(y5, 1);
    BitStep(y6, 0);
    BitStep(Down(y6), 0);
  }

  lemma {:induction false} DownAt(x: Word, k: nat)
    requires k <= 63
    ensures Bit(Down(x), k) == (k < 63 && Bit(x, k + 1))
  {
    hide Odd, Down, Bit;
    BitStep(x, k);
    NoHighBit(x);
  }

  lemma {:induction false} UpAt(x: Word, k: nat)
    requires k <= 63
    ensures Bit(Up(And(x, Rest)), k) == (k > 0 && Bit(x, k - 1)) && Bit(Up(x), k) == (k > 0 && Bit(x, k - 1))
  {
    hide Odd, Down, Bit, Up, And;
    UpFacts(x);
    UpFacts(And(x, Rest));
    BitStep(Up(x), 0);
    BitStep(Up(And(x, Rest)), 0);
    if k > 0 {
      BitStep(Up(x), k - 1);
      BitStep(Up(And(x, Rest)), k - 1);
      AndAt(x, Rest, k - 1);
      AndAt(And(x, Rest), Rest, k - 1);
      RestAt(k - 1);
    }
  }

  lemma {:induction false} MaskAt(k: nat, j: nat)
    requires k <= 63 && j <= 63
    ensures Bit(Mask(k), j) == (j == k)
  {
    hide Odd, Down, Bit, Up, And;
    if k == 0 {
      ConstantFacts();
      BitStep(Lowest, 0);
      if j > 0 { BitStep(Lowest, j - 1); ZeroAt(j - 1); }
    } else {
      UpAt(Mask(k - 1), j);
      if j > 0 { MaskAt(k - 1, j - 1); }
    }
  }

  // ---------------------------------------------------------------- digits

  function Trit(x: Word, y: Word, k: nat): (d: int)
    ensures 0 <= d <= 2
  {
    if Bit(x, k) then 1 else if Bit(y, k) then 2 else 0
  }

  // No position has both bits set.
  ghost predicate Clean(x: Word, y: Word)
  {
    And(x, y) == Zero
  }

  lemma {:induction false} CleanAt(x: Word, y: Word, k: nat)
    requires Clean(x, y)
    ensures !(Bit(x, k) && Bit(y, k))
  {
    hide Bit, And;
    AndAt(x, y, k);
    ZeroAt(k);
  }

  function SumMask(a1: Word, a2: Word, b1: Word, b2: Word): Word
  {
    And(Or(a1, a2), Or(b1, b2))
  }

  // Digitwise addition modulo 3 in seven word operations.
  lemma {:induction false} AddWord(a1: Word, a2: Word, b1: Word, b2: Word, k: nat)
    requires Clean(a1, a2) && Clean(b1, b2)
    ensures var t := SumMask(a1, a2, b1, b2); Trit(Xor(t, Or(a1, b1)), Xor(t, Or(a2, b2)), k) == (Trit(a1, a2, k) + Trit(b1, b2, k)) % 3
  {
    hide Bit, Or, And, Xor, Clean;
    var t := SumMask(a1, a2, b1, b2);
    CleanAt(a1, a2, k);
    CleanAt(b1, b2, k);
    OrAt(a1, a2, k);
    OrAt(b1, b2, k);
    AndAt(Or(a1, a2), Or(b1, b2), k);
    OrAt(a1, b1, k);
    OrAt(a2, b2, k);
    XorAt(t, Or(a1, b1), k);
    XorAt(t, Or(a2, b2), k);
  }

  lemma AddClean(a1: Word, a2: Word, b1: Word, b2: Word)
    requires Clean(a1, a2) && Clean(b1, b2)
    ensures var t := SumMask(a1, a2, b1, b2); Clean(Xor(t, Or(a1, b1)), Xor(t, Or(a2, b2)))
  {
  }

  lemma CleanSwap(x: Word, y: Word)
    requires Clean(x, y)
    ensures Clean(y, x)
  {
  }

  // Swapping the words negates every digit.
  lemma {:induction false} SwappedTrit(x: Word, y: Word, k: nat)
    requires Clean(x, y)
    ensures Trit(y, x, k) == (0 - Trit(x, y, k)) % 3
  {
    hide Bit, Clean;
    CleanAt(x, y, k);
  }

  lemma {:induction false} ZeroTrit(k: nat)
    ensures Trit(Zero, Zero, k) == 0 && Clean(Zero, Zero)
  {
    ZeroAt(k);
    hide Bit;
  }

  // Shifting down: bit k comes from bit k+1, the top bit from the carry.
  function DownWith(x: Word, h: bool): Word
  {
    if h then Or(Down(x), Top) else Down(x)
  }

  lemma {:induction false} DownWord(x: Word, h: bool, k: nat)
    requires k <= 63
    ensures Bit(DownWith(x, h), k) == if k == 63 then h else Bit(x, k + 1)
  {
    hide Bit, Or, Down;
    OrAt(Down(x), Top, k);
    TopAt(k);
    DownAt(x, k);
  }

  // Shifting up: bit k comes from bit k-1, bit 0 from the carry.
  function UpWith(x: Word, l: bool): Word
  {
    Or(Up(And(x, Rest)), if l then Lowest else Zero)
  }

  lemma {:induction false} UpWord(x: Word, l: bool, k: nat)
    requires k <= 63
    ensures Bit(UpWith(x, l), k) == if k == 0 then l else Bit(x, k - 1)
  {
    hide Bit, Or, Up, And;
    OrAt(Up(And(x, Rest)), if l then Lowest else Zero, k);
    UpAt(x, k);
    MaskAt(0, k);
    ZeroAt(k);
  }

  lemma DownClean(x: Word, y: Word, h: bool, g: bool)
    requires Clean(x, y) && !(h && g)
    ensures Clean(DownWith(x, h), DownWith(y, g))
  {
  }

  lemma UpClean(x: Word, y: Word, l: bool, g: bool)
    requires Clean(x, y) && !(l && g)
    ensures Clean(UpWith(x, l), UpWith(y, g))
  {
  }

  // Setting bit k of a word.
  lemma {:induction false} SetAt(x: Word, k: nat, j: nat)
    requires k <= 63 && j <= 63
    ensures Bit(Or(x, Mask(k)), j) == (j == k || Bit(x, j))
  {
    hide Bit, Mask, Or;
    OrAt(x, Mask(k), j);
    MaskAt(k, j);
  }

  lemma SetClean(x: Word, y: Word, m: Word)
    requires Clean(x, y) && Clean(m, y)
    ensures Clean(Or(x, m), y) && Clean(y, Or(x, m))
  {
  }

  lemma TopOnly(x: Word)
    ensures And(x, Top) == Zero || And(x, Top) == Top
  {
  }

  // The test of the top bit by a mask.
  lemma {:induction false} TopTest(x: Word)
    ensures And(x, Top) != Zero <==> Bit(x, 63)
  {
    hide Bit, And;
    TopOnly(x);
    AndAt(x, Top, 63);
    ZeroAt(63);
    TopAt(63);
  }

  // n bytes hold the word.
  ghost predicate Short(x: Word, n: nat)
    decreases n
  {
    if n == 0 then x == Zero else Short(Down8(x), n - 1)
  }

  lemma ShortStep(x: Word, n: nat)
    ensures Short(x, n + 1) == Short(Down8(x), n) && Short(Zero, 0)
  {
  }

  lemma {:induction false} EightBytesHold(x: Word)
    ensures Short(x, 8)
  {
    hide Down8, Short;
    EightBytes(x);
    var x1 := Down8(x);
    var x2 := Down8(x1);
    var x3 := Down8(x2);
    var x4 := Down8(x3);
    var x5 := Down8(x4);
    var x6 := Down8(x5);
    var x7 := Down8(x6);
    ShortStep(x, 7);
    ShortStep(x1, 6);
    ShortStep(x2, 5);
    ShortStep(x3, 4);
    ShortStep(x4, 3);
    ShortStep(x5, 2);
    ShortStep(x6, 1);
    ShortStep(x7, 0);
  }

  lemma EvenByte(x: Word)
    requires !Odd(x) && !Odd(Down(x)) && !Odd(Down(Down(x))) && !Odd(Down(Down(Down(x)))) && !Odd(Down(Down(Down(Down(x)))))
    requires !Odd(Down(Down(Down(Down(Down(x)))))) && !Odd(Down(Down(Down(Down(Down(Down(x)))))))
    requires !Odd(Down(Down(Down(Down(Down(Down(Down(x))))))))
    requires Down8(x) == Zero
    ensures x == Zero
  {
  }

  ghost predicate LowZeros(x: Word, n: nat)
    decreases n
  {
    n == 0 || (!Odd(x) && LowZeros(Down(x), n - 1))
  }

  lemma ZerosStep(x: Word, n: nat)
    requires LowZeros(x, n + 1)
    ensures !Odd(x) && LowZeros(Down(x), n)
  {
  }

  lemma {:induction false} NoLowBits(x: Word, n: nat)
    requires forall j: nat :: j < n ==> !Bit(x, j)
    ensures LowZeros(x, n)
    decreases n
  {
    hide Odd, Down;
    if n > 0 {
      assert !Bit(x, 0);
      forall j: nat | j < n - 1 ensures !Bit(Down(x), j) { assert !Bit(x, j + 1); }
      NoLowBits(Down(x), n - 1);
    }
  }

  lemma {:induction false} ZeroByte(x: Word)
    requires LowZeros(x, 8) && Down8(x) == Zero
    ensures x == Zero
  {
    hide Odd, Down, Down8, LowZeros;
    var x1 := Down(x);
    var x2 := Down(x1);
    var x3 := Down(x2);
    var x4 := Down(x3);
    var x5 := Down(x4);
    var x6 := Down(x5);
    ZerosStep(x, 7);
    ZerosStep(x1, 6);
    ZerosStep(x2, 5);
    ZerosStep(x3, 4);
    ZerosStep(x4, 3);
    ZerosStep(x5, 2);
    ZerosStep(x6, 1);
    ZerosStep(Down(x6), 0);
    EvenByte(x);
  }

  // A word without bits is zero.
  lemma {:induction false} NoBitsZero(x: Word, n: nat)
    requires Short(x, n) && forall j: nat :: j < 8 * n ==> !Bit(x, j)
    ensures x == Zero
    decreases n
  {
    hide Odd, Down, Down8, Bit, LowZeros;
    if n > 0 {
      forall j: nat | j < 8 * (n - 1) ensures !Bit(Down8(x), j) { ByteStep(x, j); }
      NoBitsZero(Down8(x), n - 1);
      NoLowBits(x, 8);
      ZeroByte(x);
    }
  }
}
