/**
 Bitmaps of any length over arrays of words (src/bitmap.c).  The methods are
 specified by `IsSet`: which bits an operation reads, and which it changes.
 */
module Bitmap {
  import opened Words

  const WORD_BITS: nat := 64

  /** index_t and count_t are 32 bits wide; nothing below may wrap around. */
  const INDEX_LIMIT: nat := 0x1_0000_0000

  /** BITMAP_NUM_WORDS: the number of words that hold n bits. */
  function NumWords(n: nat): nat
    requires n + WORD_BITS - 1 < INDEX_LIMIT
  {
    (n + WORD_BITS - 1) / WORD_BITS
  }

  /** Bit k of the bitmap. */
  predicate IsSet(words: seq<Word>, k: nat)
    requires k < WORD_BITS * |words|
  {
    Bit(words[k / WORD_BITS], k % WORD_BITS)
  }

  /** bitmap_isset */
  function Test(bitmap: array<Word>, bit: nat): (r: bool)
    requires bit < WORD_BITS * bitmap.Length
    reads bitmap
    ensures r == IsSet(bitmap[..], bit)
  {
    BitTest(bitmap[bit / WORD_BITS], bit % WORD_BITS);
    And(bitmap[bit / WORD_BITS], SingleBit(bit % WORD_BITS)) != Zero()
  }

  /** bitmap_set */
  method Set(bitmap: array<Word>, bit: nat)
    requires bit < WORD_BITS * bitmap.Length
    modifies bitmap
    ensures forall k :: 0 <= k < WORD_BITS * bitmap.Length ==>
              (IsSet(bitmap[..], k) <==> k == bit || IsSet(old(bitmap[..]), k))
  {
    hide Bit, SingleBit, Or;
    var i := bit / WORD_BITS;
    bitmap[i] := Or(bitmap[i], SingleBit(bit % WORD_BITS));
    forall k | 0 <= k < WORD_BITS * bitmap.Length
      ensures IsSet(bitmap[..], k) <==> k == bit || IsSet(old(bitmap[..]), k)
    {
      BitOfOr(old(bitmap[i]), SingleBit(bit % WORD_BITS), k % WORD_BITS);
      BitOfSingleBit(bit % WORD_BITS, k % WORD_BITS);
    }
  }

  /** bitmap_clear */
  method Clear(bitmap: array<Word>, bit: nat)
    requires bit < WORD_BITS * bitmap.Length
    modifies bitmap
    ensures forall k :: 0 <= k < WORD_BITS * bitmap.Length ==>
              (IsSet(bitmap[..], k) <==> k != bit && IsSet(old(bitmap[..]), k))
  {
    hide Bit, SingleBit, And, Not;
    var i := bit / WORD_BITS;
    bitmap[i] := And(bitmap[i], Not(SingleBit(bit % WORD_BITS)));
    forall k | 0 <= k < WORD_BITS * bitmap.Length
      ensures IsSet(bitmap[..], k) <==> k != bit && IsSet(old(bitmap[..]), k)
    {
      BitOfAnd(old(bitmap[i]), Not(SingleBit(bit % WORD_BITS)), k % WORD_BITS);
      BitOfNot(SingleBit(bit % WORD_BITS), k % WORD_BITS);
      BitOfSingleBit(bit % WORD_BITS, k % WORD_BITS);
    }
  }

  // ----- Fields inside one word -----

  function ReadField(w: Word, at: nat, width: nat): Word
    requires at + width <= WORD_BITS
  {
    And(ShiftRight(w, at), LowMask(width))
  }

  function WriteField(w: Word, at: nat, width: nat, value: Word): Word
    requires at + width <= WORD_BITS
  {
    var mask := LowMask(width);
    Or(And(w, Not(ShiftLeft(mask, at))), ShiftLeft(And(value, mask), at))
  }

  lemma BitOfReadField(w: Word, at: nat, width: nat, i: nat)
    requires at + width <= WORD_BITS && i < WORD_BITS
    ensures Bit(ReadField(w, at, width), i) <==> i < width && Bit(w, at + i)
  {
    hide Bit, ShiftRight, And, LowMask;
    BitOfAnd(ShiftRight(w, at), LowMask(width), i);
    BitOfShiftRight(w, at, i);
    BitOfLowMask(width, i);
  }

  lemma BitOfWriteField(w: Word, at: nat, width: nat, value: Word, i: nat)
    requires at + width <= WORD_BITS && i < WORD_BITS
    ensures Bit(WriteField(w, at, width, value), i)
       <==> if at <= i < at + width then Bit(value, i - at) else Bit(w, i)
  {
    hide Bit, ShiftLeft, And, Or, Not, LowMask;
    var mask := LowMask(width);
    BitOfOr(And(w, Not(ShiftLeft(mask, at))), ShiftLeft(And(value, mask), at), i);
    BitOfAnd(w, Not(ShiftLeft(mask, at)), i);
    BitOfNot(ShiftLeft(mask, at), i);
    BitOfShiftLeft(mask, at, i);
    BitOfShiftLeft(And(value, mask), at, i);
    if at <= i {
      BitOfAnd(value, mask, i - at);
      BitOfLowMask(width, i - at);
    }
  }

  /** Reading back a field gives the part of the value that fits in it. */
  lemma FieldRoundTrip(w: Word, at: nat, width: nat, value: Word)
    requires at + width <= WORD_BITS
    ensures ReadField(WriteField(w, at, width, value), at, width) == And(value, LowMask(width))
  {
    hide Bit, ReadField, WriteField, And, LowMask;
    var w' := WriteField(w, at, width, value);
    forall i | 0 <= i < 64
      ensures Bit(ReadField(w', at, width), i) == Bit(And(value, LowMask(width)), i)
    {
      BitOfReadField(w', at, width, i);
      BitOfAnd(value, LowMask(width), i);
      BitOfLowMask(width, i);
      if i < width {
        BitOfWriteField(w, at, width, value, at + i);
      }
    }
    BitsDetermineWord(ReadField(w', at, width), And(value, LowMask(width)));
  }

  /** A field of 1 to 64 bits that lies in one word: what bitmap_extract and bitmap_insert assert. */
  predicate IsField(bit: nat, width: nat, words: nat) {
    1 <= width && bit % WORD_BITS + width <= WORD_BITS && bit < WORD_BITS * words
  }

  /** bitmap_extract */
  function Extract(words: seq<Word>, bit: nat, width: nat): Word
    requires IsField(bit, width, |words|)
  {
    ReadField(words[bit / WORD_BITS], bit % WORD_BITS, width)
  }

  lemma BitOfExtract(words: seq<Word>, bit: nat, width: nat, i: nat)
    requires IsField(bit, width, |words|) && i < WORD_BITS
    ensures Bit(Extract(words, bit, width), i) <==> i < width && IsSet(words, bit + i)
  {
    hide Bit, ReadField;
    BitOfReadField(words[bit / WORD_BITS], bit % WORD_BITS, width, i);
    if i < width {
      assert (bit + i) / WORD_BITS == bit / WORD_BITS && (bit + i) % WORD_BITS == bit % WORD_BITS + i;
    }
  }

  /** bitmap_insert */
  method Insert(bitmap: array<Word>, bit: nat, width: nat, value: Word)
    requires IsField(bit, width, bitmap.Length)
    modifies bitmap
    ensures forall k :: 0 <= k < WORD_BITS * bitmap.Length ==>
              (IsSet(bitmap[..], k) <==>
               if bit <= k < bit + width then Bit(value, k - bit) else IsSet(old(bitmap[..]), k))
    ensures forall j :: 0 <= j < bitmap.Length && j != bit / WORD_BITS ==> bitmap[j] == old(bitmap[j])
    ensures Extract(bitmap[..], bit, width) == And(value, LowMask(width))
  {
    hide Bit, ShiftLeft, ShiftRight, And, Or, Not, LowMask;
    FieldRoundTrip(bitmap[bit / WORD_BITS], bit % WORD_BITS, width, value);
    var i := bit / WORD_BITS;
    var mask := LowMask(width);
    bitmap[i] := And(bitmap[i], Not(ShiftLeft(mask, bit % WORD_BITS)));
    bitmap[i] := Or(bitmap[i], ShiftLeft(And(value, mask), bit % WORD_BITS));
    forall k | 0 <= k < WORD_BITS * bitmap.Length
      ensures IsSet(bitmap[..], k) <==>
              if bit <= k < bit + width then Bit(value, k - bit) else IsSet(old(bitmap[..]), k)
    {
      if k / WORD_BITS == i {
        BitOfWriteField(old(bitmap[i]), bit % WORD_BITS, width, value, k % WORD_BITS);
      }
    }
  }

  // ----- What the callers of bitmap_extract learn -----

  lemma ExtractIsEmpty(words: seq<Word>, bit: nat, width: nat)
    requires IsField(bit, width, |words|)
    ensures Extract(words, bit, width) == Zero() <==>
            forall k :: bit <= k < bit + width ==> !IsSet(words, k)
  {
    hide Bit, Extract, IsSet, Zero;
    var v := Extract(words, bit, width);
    ZeroWord(v);
    forall i | 0 <= i < 64
      ensures Bit(v, i) <==> i < width && IsSet(words, bit + i)
    {
      BitOfExtract(words, bit, width, i);
    }
    forall k | bit <= k < bit + width
      ensures IsSet(words, k) == Bit(v, k - bit)
    {
    }
  }

  lemma ExtractIsFull(words: seq<Word>, bit: nat, width: nat)
    requires IsField(bit, width, |words|)
    ensures Extract(words, bit, width) == LowMask(width) <==>
            forall k :: bit <= k < bit + width ==> IsSet(words, k)
  {
    hide Bit, Extract, IsSet, LowMask;
    var v := Extract(words, bit, width);
    forall i | 0 <= i < 64
      ensures Bit(v, i) <==> i < width && IsSet(words, bit + i)
      ensures Bit(LowMask(width), i) <==> i < width
    {
      BitOfExtract(words, bit, width, i);
      BitOfLowMask(width, i);
    }
    forall k | bit <= k < bit + width
      ensures IsSet(words, k) == Bit(v, k - bit)
    {
    }
    if forall k :: bit <= k < bit + width ==> IsSet(words, k) {
      BitsDetermineWord(v, LowMask(width));
    }
  }

  /** The bits of a field that are clear, as the range check computes them. */
  function ClearBits(val: Word, width: nat): Word
    requires width <= WORD_BITS
  {
    And(Not(val), LowMask(width))
  }

  /** Bit m of the field is inside it and clear. */
  predicate ClearInField(words: seq<Word>, bit: nat, width: nat, m: nat)
    requires IsField(bit, width, |words|)
  {
    m < width && !IsSet(words, bit + m)
  }

  /** A field that is not full has a highest clear bit, and compiler_msb finds it. */
  lemma HighestClearBit(words: seq<Word>, bit: nat, width: nat)
    requires IsField(bit, width, |words|)
    requires Extract(words, bit, width) != LowMask(width)
    ensures var clear := ClearBits(Extract(words, bit, width), width);
            clear != Zero() && ClearInField(words, bit, width, Msb(clear))
  {
    hide Bit, Extract, IsSet, LowMask, And, Not, Zero, Msb;
    var v := Extract(words, bit, width);
    var clear := ClearBits(v, width);
    forall i | 0 <= i < 64
      ensures Bit(clear, i) <==> i < width && !IsSet(words, bit + i)
    {
      BitOfExtract(words, bit, width, i);
      BitOfLowMask(width, i);
      BitOfNot(v, i);
      BitOfAnd(Not(v), LowMask(width), i);
    }
    ExtractIsFull(words, bit, width);
    var k :| bit <= k < bit + width && !IsSet(words, k);
    assert Bit(clear, k - bit);
    ZeroWord(clear);
    MsbIsGreatestBit(clear);
  }

  /** The comparison of a field with its mask, and the highest clear bit of a field that is not full. */
  method FieldIsFull(bitmap: array<Word>, bit: nat, width: nat) returns (full: bool, top: nat)
    requires IsField(bit, width, bitmap.Length)
    ensures full <==> forall k :: bit <= k < bit + width ==> IsSet(bitmap[..], k)
    ensures !full ==> ClearInField(bitmap[..], bit, width, top)
  {
    hide Bit, IsSet, Zero, LowMask, Extract, And, Not, Msb;
    var mask := LowMask(width);
    var val := Extract(bitmap[..], bit, width);
    ExtractIsFull(bitmap[..], bit, width);
    full, top := true, 0;
    if val != mask {
      HighestClearBit(bitmap[..], bit, width);
      var allocBits := ClearBits(val, width);
      assert allocBits != Zero();
      full, top := false, Msb(allocBits);
    }
  }

  /** A word of the bitmap is zero exactly when it holds no set bit. */
  lemma EmptyBlock(words: seq<Word>, j: nat)
    requires j < |words|
    ensures words[j] == Zero() <==>
            forall k :: WORD_BITS * j <= k < WORD_BITS * (j + 1) ==> !IsSet(words, k)
  {
    hide Bit, Zero;
    ZeroWord(words[j]);
    forall i | 0 <= i < 64
      ensures Bit(words[j], i) == IsSet(words, WORD_BITS * j + i)
    {
    }
  }

  /**
   bitmap_find_first: the least bit in [start, end] that is set (or clear), if there is one.
   */
  method FindFirst(bitmap: array<Word>, start: nat, end: nat, wanted: bool) returns (found: bool, bit: nat)
    requires start <= end < WORD_BITS * bitmap.Length && end + WORD_BITS < INDEX_LIMIT
    ensures found ==> start <= bit <= end && IsSet(bitmap[..], bit) == wanted
    ensures forall k :: start <= k <= end && (found ==> k < bit) ==> IsSet(bitmap[..], k) != wanted
  {
    hide Bit, And, Not, LowMask, Zero, Ctz;
    found, bit := false, 0;
    var i := start / WORD_BITS;
    var words := NumWords(end + 1);
    while i < words
      invariant start / WORD_BITS <= i <= words
      invariant forall k :: start <= k < WORD_BITS * i && k <= end ==> IsSet(bitmap[..], k) != wanted
    {
      var x := if wanted then bitmap[i] else Not(bitmap[i]);
      var skip := if i == start / WORD_BITS then start % WORD_BITS else 0;
      if i == start / WORD_BITS {
        x := And(x, Not(LowMask(start % WORD_BITS)));
      }
      forall j | 0 <= j < 64
        ensures Bit(x, j) <==> skip <= j && Bit(bitmap[i], j) == wanted
      {
        BitOfNot(bitmap[i], j);
        BitOfAnd(if wanted then bitmap[i] else Not(bitmap[i]), Not(LowMask(start % WORD_BITS)), j);
        BitOfNot(LowMask(start % WORD_BITS), j);
        BitOfLowMask(start % WORD_BITS, j);
      }
      if x != Zero() {
        CtzIsLeastBit(x);
        var j := Ctz(x);
        var candidate := i * WORD_BITS + j;
        assert candidate < INDEX_LIMIT;
        if candidate <= end {
          found, bit := true, candidate;
        }
        return;
      }
      ZeroWord(x);
      i := i + 1;
    }
  }
}
