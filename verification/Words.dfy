/**
 The 64-bit machine word `register_t` with the bit operations of include/util.h
 and include/compiler.h.  The meaning of a word is the predicate `Bit`; one
 lemma per operation says what the operation does to each bit.

 A word wraps a `bv64`.  Only the ...At lemmas look inside: they are left to the
 bit-vector solver, and everything else reasons about integer bit positions.
 */
module Words {

  datatype Word = Word(bits: bv64)

  predicate BitAt(w: Word, s: bv6) {
    (w.bits >> s) & 1 == 1
  }

  /** The shift amount n as a bit vector; the C code only shifts by less than the word width. */
  function ShiftAmount(n: nat): bv6
    requires n < 64
  {
    if n == 0 then 0 else ShiftAmount(n - 1) + 1
  }

  /** Bit i of a word, bit 0 being the least significant. */
  predicate Bit(w: Word, i: nat)
    requires i < 64
  {
    BitAt(w, ShiftAmount(i))
  }

  // ----- The operations -----

  function Zero(): Word { Word(0) }
  function One(): Word { Word(1) }
  function And(v: Word, w: Word): Word { Word(v.bits & w.bits) }
  function Or(v: Word, w: Word): Word { Word(v.bits | w.bits) }
  function Not(w: Word): Word { Word(!w.bits) }
  function Minus(v: Word, w: Word): Word { Word(v.bits - w.bits) }
  function Double(w: Word): Word { Word(w.bits << 1) }
  function Half(w: Word): Word { Word(w.bits >> 1) }

  /** `w << n`: n shifts by one place. */
  function ShiftLeft(w: Word, n: nat): Word {
    if n == 0 then w else Double(ShiftLeft(w, n - 1))
  }

  /** `w >> n`: n shifts by one place. */
  function ShiftRight(w: Word, n: nat): Word {
    if n == 0 then w else Half(ShiftRight(w, n - 1))
  }

  /** util_bit */
  function SingleBit(n: nat): Word
    requires n < 64
  {
    ShiftLeft(One(), n)
  }

  /** util_mask_safe: the n lowest bits. */
  function LowMask(n: nat): Word
    requires n <= 64
  {
    if n < 64 then Minus(SingleBit(n), One()) else Not(Zero())
  }

  // ----- Bit-vector facts -----

  lemma AndAt(v: Word, w: Word, s: bv6)
    ensures BitAt(And(v, w), s) <==> BitAt(v, s) && BitAt(w, s)
  {
  }

  lemma OrAt(v: Word, w: Word, s: bv6)
    ensures BitAt(Or(v, w), s) <==> BitAt(v, s) || BitAt(w, s)
  {
  }

  lemma NotAt(w: Word, s: bv6)
    ensures BitAt(Not(w), s) <==> !BitAt(w, s)
  {
  }

  lemma ZeroAt(s: bv6)
    ensures !BitAt(Zero(), s)
  {
  }

  lemma HalfAt(w: Word, s: bv6)
    ensures s != 63 ==> (BitAt(Half(w), s) <==> BitAt(w, s + 1))
    ensures !BitAt(Half(w), 63)
  {
  }

  lemma DoubleAt(w: Word, s: bv6)
    ensures s != 63 ==> (BitAt(Double(w), s + 1) <==> BitAt(w, s))
    ensures !BitAt(Double(w), 0)
  {
  }

  lemma OneAt(s: bv6)
    ensures BitAt(One(), s) <==> s == 0
  {
  }

  lemma MaskAt(w: Word)
    ensures Minus(Double(w), One()) == Or(Double(Minus(w, One())), One())
    ensures Not(Zero()) == Minus(Zero(), One())
    ensures Minus(One(), One()) == Zero()
  {
  }

  lemma HalfIsLess(w: Word)
    requires w != Zero()
    ensures Half(w).bits < w.bits
    ensures w != One() ==> Half(w) != Zero()
    ensures !BitAt(w, 0) ==> Half(w) != Zero()
  {
  }

  lemma DifferenceAt(v: Word, w: Word)
    ensures Or(And(v, Not(w)), And(Not(v), w)) == Zero() ==> v == w
  {
  }

  lemma SuccessorValue(s: bv6)
    requires s as nat < 63
    ensures (s + 1) as nat == s as nat + 1
  {
  }

  // ----- Shift amounts -----

  lemma {:induction false} ShiftAmountIsExact(n: nat)
    requires n < 64
    ensures ShiftAmount(n) as nat == n
  {
    if n > 0 {
      ShiftAmountIsExact(n - 1);
      SuccessorValue(ShiftAmount(n - 1));
    }
  }

  lemma ShiftAmountStep(n: nat)
    requires 0 < n < 64
    ensures ShiftAmount(n) == ShiftAmount(n - 1) + 1 && ShiftAmount(n - 1) != 63
  {
    ShiftAmountIsExact(n - 1);
  }

  lemma LastShiftAmount()
    ensures ShiftAmount(63) == 63
  {
    ShiftAmountIsExact(63);
  }

  lemma ShiftAmountInjective(m: nat, n: nat)
    requires m < 64 && n < 64
    ensures ShiftAmount(m) == ShiftAmount(n) <==> m == n
  {
    ShiftAmountIsExact(m);
    ShiftAmountIsExact(n);
  }

  // ----- What each operation does to bit i -----

  lemma BitOfAnd(v: Word, w: Word, i: nat)
    requires i < 64
    ensures Bit(And(v, w), i) <==> Bit(v, i) && Bit(w, i)
  {
    hide And, BitAt, ShiftAmount;
    AndAt(v, w, ShiftAmount(i));
  }

  lemma BitOfOr(v: Word, w: Word, i: nat)
    requires i < 64
    ensures Bit(Or(v, w), i) <==> Bit(v, i) || Bit(w, i)
  {
    hide Or, BitAt, ShiftAmount;
    OrAt(v, w, ShiftAmount(i));
  }

  lemma BitOfNot(w: Word, i: nat)
    requires i < 64
    ensures Bit(Not(w), i) <==> !Bit(w, i)
  {
    hide Not, BitAt, ShiftAmount;
    NotAt(w, ShiftAmount(i));
  }

  lemma BitOfZero(i: nat)
    requires i < 64
    ensures !Bit(Zero(), i)
  {
    hide Zero, BitAt, ShiftAmount;
    ZeroAt(ShiftAmount(i));
  }

  lemma BitOfOne(i: nat)
    requires i < 64
    ensures Bit(One(), i) <==> i == 0
  {
    hide One, BitAt;
    OneAt(ShiftAmount(i));
    ShiftAmountInjective(i, 0);
  }

  lemma BitOfDouble(w: Word, i: nat)
    requires i < 64
    ensures Bit(Double(w), i) <==> 0 < i && Bit(w, i - 1)
  {
    hide BitAt, Double;
    if i == 0 {
      DoubleAt(w, 0);
    } else {
      ShiftAmountStep(i);
      DoubleAt(w, ShiftAmount(i - 1));
    }
  }

  lemma BitOfHalf(w: Word, i: nat)
    requires i < 64
    ensures Bit(Half(w), i) <==> i < 63 && Bit(w, i + 1)
  {
    hide BitAt, Half;
    LastShiftAmount();
    HalfAt(w, ShiftAmount(i));
    if i < 63 {
      ShiftAmountStep(i + 1);
    }
  }

  lemma {:induction false} BitOfShiftLeft(w: Word, s: nat, i: nat)
    requires i < 64
    ensures Bit(ShiftLeft(w, s), i) <==> s <= i && Bit(w, i - s)
    decreases s
  {
    hide Bit, Double;
    if s > 0 {
      BitOfDouble(ShiftLeft(w, s - 1), i);
      if i > 0 {
        BitOfShiftLeft(w, s - 1, i - 1);
      }
    }
  }

  lemma {:induction false} BitOfShiftRight(w: Word, s: nat, i: nat)
    requires i < 64
    ensures Bit(ShiftRight(w, s), i) <==> s + i < 64 && Bit(w, s + i)
    decreases s
  {
    hide Bit, Half;
    if s > 0 {
      BitOfHalf(ShiftRight(w, s - 1), i);
      if i < 63 {
        BitOfShiftRight(w, s - 1, i + 1);
      }
    }
  }

  lemma BitOfSingleBit(n: nat, i: nat)
    requires n < 64 && i < 64
    ensures Bit(SingleBit(n), i) <==> i == n
  {
    hide Bit, One;
    BitOfShiftLeft(One(), n, i);
    if n <= i {
      BitOfOne(i - n);
    }
  }

  // ----- A word is determined by its bits -----

  lemma LowestBit(w: Word)
    ensures Bit(w, 0) == BitAt(w, 0)
  {
  }

  lemma {:induction false} NonZeroHasBit(w: Word) returns (i: nat)
    requires w != Zero()
    ensures i < 64 && Bit(w, i)
    decreases w.bits
  {
    hide Bit, BitAt, Half, Zero, One;
    LowestBit(w);
    if Bit(w, 0) {
      i := 0;
    } else {
      HalfIsLess(w);
      i := NonZeroHasBit(Half(w));
      BitOfHalf(w, i);
      i := i + 1;
    }
  }

  /** A word is zero exactly when none of its bits is set. */
  lemma ZeroWord(w: Word)
    ensures w == Zero() <==> forall i :: 0 <= i < 64 ==> !Bit(w, i)
  {
    hide Bit, Zero;
    if w == Zero() {
      forall i | 0 <= i < 64
        ensures !Bit(w, i)
      {
        BitOfZero(i);
      }
    } else {
      var i := NonZeroHasBit(w);
    }
  }

  lemma BitsDetermineWord(v: Word, w: Word)
    requires forall i :: 0 <= i < 64 ==> Bit(v, i) == Bit(w, i)
    ensures v == w
  {
    hide Bit, And, Or, Not, Zero;
    var d := Or(And(v, Not(w)), And(Not(v), w));
    forall i | 0 <= i < 64
      ensures !Bit(d, i)
    {
      BitOfOr(And(v, Not(w)), And(Not(v), w), i);
      BitOfAnd(v, Not(w), i);
      BitOfAnd(Not(v), w, i);
      BitOfNot(v, i);
      BitOfNot(w, i);
    }
    ZeroWord(d);
    DifferenceAt(v, w);
  }

  /** The test made by bitmap_isset. */
  lemma BitTest(w: Word, n: nat)
    requires n < 64
    ensures And(w, SingleBit(n)) != Zero() <==> Bit(w, n)
  {
    hide Bit, SingleBit, And, Zero;
    forall i | 0 <= i < 64
      ensures Bit(And(w, SingleBit(n)), i) <==> i == n && Bit(w, n)
    {
      BitOfAnd(w, SingleBit(n), i);
      BitOfSingleBit(n, i);
    }
    if Bit(w, n) {
      assert Bit(And(w, SingleBit(n)), n);
    }
    ZeroWord(And(w, SingleBit(n)));
  }

  // ----- Masks -----

  lemma DoubleOfTopBit()
    ensures Double(SingleBit(63)) == Zero()
  {
    hide Bit, SingleBit, Double, Zero;
    forall i | 0 <= i < 64
      ensures !Bit(Double(SingleBit(63)), i)
    {
      BitOfDouble(SingleBit(63), i);
      if i > 0 {
        BitOfSingleBit(63, i - 1);
      }
    }
    ZeroWord(Double(SingleBit(63)));
  }

  lemma MaskStep(n: nat)
    requires 0 < n <= 64
    ensures LowMask(n) == Or(Double(LowMask(n - 1)), One())
    ensures LowMask(0) == Zero()
  {
    hide One, Zero, Or, Not, Minus, Double;
    MaskAt(SingleBit(n - 1));
    DoubleOfTopBit();
  }

  lemma {:induction false} BitOfLowMask(n: nat, i: nat)
    requires n <= 64 && i < 64
    ensures Bit(LowMask(n), i) <==> i < n
    decreases n
  {
    hide Bit, LowMask, Or, Double, Zero, One;
    MaskStep(if n == 0 then 1 else n);
    if n == 0 {
      BitOfZero(i);
    } else {
      BitOfOr(Double(LowMask(n - 1)), One(), i);
      BitOfDouble(LowMask(n - 1), i);
      BitOfOne(i);
      if i > 0 {
        BitOfLowMask(n - 1, i - 1);
      }
    }
  }

  // ----- Counting zeros -----

  /** compiler_ctz */
  function Ctz(w: Word): nat
    requires w != Zero()
    decreases w.bits
  {
    HalfIsLess(w);
    if BitAt(w, 0) then 0 else 1 + Ctz(Half(w))
  }

  lemma {:induction false} CtzIsLeastBit(w: Word)
    requires w != Zero()
    ensures Ctz(w) < 64 && Bit(w, Ctz(w))
    ensures forall i :: 0 <= i < Ctz(w) ==> !Bit(w, i)
    decreases w.bits
  {
    hide Bit, BitAt, Half, Zero, One;
    LowestBit(w);
    if !BitAt(w, 0) {
      HalfIsLess(w);
      CtzIsLeastBit(Half(w));
      BitOfHalf(w, Ctz(Half(w)));
      forall i | 0 < i < Ctz(w)
        ensures !Bit(w, i)
      {
        BitOfHalf(w, i - 1);
      }
    }
  }

  /** compiler_msb */
  function Msb(w: Word): nat
    requires w != Zero()
    decreases w.bits
  {
    HalfIsLess(w);
    if w == One() then 0 else 1 + Msb(Half(w))
  }

  lemma {:induction false} MsbIsGreatestBit(w: Word)
    requires w != Zero()
    ensures Msb(w) < 64 && Bit(w, Msb(w))
    ensures forall i :: Msb(w) < i < 64 ==> !Bit(w, i)
    decreases w.bits
  {
    hide Bit, BitAt, Half, Zero, One;
    if w == One() {
      forall i | 0 <= i < 64
        ensures Bit(w, i) <==> i == 0
      {
        BitOfOne(i);
      }
    } else {
      HalfIsLess(w);
      MsbIsGreatestBit(Half(w));
      BitOfHalf(w, Msb(Half(w)));
      forall i | Msb(w) < i < 64
        ensures !Bit(w, i)
      {
        BitOfHalf(w, i - 1);
      }
    }
  }
}
