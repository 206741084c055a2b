/**
 Numerals: how itoa emits digits and reverses them, and how atodec reads them back
 (src/string_util.c).
 */
module Digits {
  import opened Util

  /** The bases that the format types b, o, d and x select. */
  predicate IsBase(base: nat) {
    base == 2 || base == 8 || base == 10 || base == 16
  }

  const DIGITS: string := "0123456789abcdef"

  function DigitChar(d: nat): char
    requires d < 16
  {
    DIGITS[d]
  }

  /** The value of a digit; 16 for any other character. */
  function DigitValue(c: char): nat {
    if '0' <= c <= '9' then (c - '0') as nat
    else if 'a' <= c <= 'f' then (c - 'a') as nat + 10
    else 16
  }

  function Reverse(s: string): (r: string)
    ensures |r| == |s|
    ensures forall i :: 0 <= i < |s| ==> r[i] == s[|s| - 1 - i]
  {
    if s == [] then [] else Reverse(s[1..]) + [s[0]]
  }

  /** The digits in the order in which itoa's loop writes them, the least significant first. */
  function Emitted(val: nat, base: nat): (s: string)
    requires IsBase(base)
    ensures |s| >= 1
    decreases val
  {
    [DigitChar(val % base)] + if val / base == 0 then [] else Emitted(val / base, base)
  }

  /** The numeral as it is read. */
  function Numeral(val: nat, base: nat): string
    requires IsBase(base)
  {
    Reverse(Emitted(val, base))
  }

  /** The positional value of a string of digits, the most significant first. */
  function ValueOf(s: string, base: nat): nat {
    if s == [] then 0 else ValueOf(s[..|s| - 1], base) * base + DigitValue(s[|s| - 1])
  }

  /** A nonempty string of digits of the base without a leading zero, except for zero itself. */
  predicate IsNumeral(s: string, base: nat) {
    s != [] && (forall i :: 0 <= i < |s| ==> DigitValue(s[i]) < base) && (s[0] == '0' ==> |s| == 1)
  }

  lemma DigitRoundTrip(d: nat)
    requires d < 16
    ensures DigitValue(DigitChar(d)) == d
  {
  }

  lemma CharRoundTrip(c: char)
    requires DigitValue(c) < 16
    ensures DigitChar(DigitValue(c)) == c
  {
    var v := DigitValue(c);
    if v == 0 {} else if v == 1 {} else if v == 2 {} else if v == 3 {} else if v == 4 {} else if v == 5 {}
    else if v == 6 {} else if v == 7 {} else if v == 8 {} else if v == 9 {} else if v == 10 {}
    else if v == 11 {} else if v == 12 {} else if v == 13 {} else if v == 14 {} else {}
  }

  lemma DivMod(val: nat, base: nat)
    requires IsBase(base)
    ensures val == val / base * base + val % base && val % base < base
    ensures val / base == 0 <==> val < base
    ensures val > 0 ==> val / base < val
  {
    if base == 2 {
    } else if base == 8 {
    } else if base == 10 {
    } else {
    }
  }

  lemma NumeralStep(val: nat, base: nat)
    requires IsBase(base)
    ensures Numeral(val, base) ==
            (if val / base == 0 then [] else Numeral(val / base, base)) + [DigitChar(val % base)]
  {
    var e := Emitted(val, base);
    if val / base != 0 {
      assert e[1..] == Emitted(val / base, base);
    } else {
      assert e[1..] == [];
    }
  }

  /** itoa's digits have the value they were made from and no leading zero. */
  lemma {:induction false} NumeralIsExact(val: nat, base: nat)
    requires IsBase(base)
    ensures IsNumeral(Numeral(val, base), base)
    ensures ValueOf(Numeral(val, base), base) == val
    ensures Numeral(val, base)[0] == '0' ==> val == 0
    decreases val
  {
    hide Numeral, Reverse, Emitted;
    DivMod(val, base);
    NumeralStep(val, base);
    DigitRoundTrip(val % base);
    var s := Numeral(val, base);
    if val / base != 0 {
      NumeralIsExact(val / base, base);
      assert s[..|s| - 1] == Numeral(val / base, base);
    } else {
      assert s[..|s| - 1] == [];
    }
  }

  lemma DivModUnique(q: nat, d: nat, base: nat)
    requires IsBase(base) && d < base
    ensures (q * base + d) / base == q && (q * base + d) % base == d
  {
    if base == 2 {
    } else if base == 8 {
    } else if base == 10 {
    } else {
    }
  }

  /** The numeral of a value is the only one: reading and printing again gives the string back. */
  lemma {:induction false} NumeralIsUnique(s: string, base: nat)
    requires IsBase(base) && IsNumeral(s, base)
    ensures Numeral(ValueOf(s, base), base) == s
    decreases |s|
  {
    hide Numeral;
    var last := |s| - 1;
    var d := DigitValue(s[last]);
    CharRoundTrip(s[last]);
    var p := s[..last];
    assert s == p + [s[last]];
    DivModUnique(ValueOf(p, base), d, base);
    NumeralStep(ValueOf(s, base), base);
    if p != [] {
      NumeralIsUnique(p, base);
      NumeralIsExact(ValueOf(p, base), base);
      if ValueOf(p, base) == 0 {
        ZeroNumeral(base);
      }
    }
  }

  lemma ZeroNumeral(base: nat)
    requires IsBase(base)
    ensures Numeral(0, base) == "0"
  {
    NumeralStep(0, base);
  }

  // ----- atodec -----

  /** atodec in 64-bit arithmetic, for any characters. */
  function DecValue(s: string): nat {
    if s == [] then 0 else (DecValue(s[..|s| - 1]) * 10 + (s[|s| - 1] as int - '0' as int)) % U64
  }

  lemma ModOfProduct(v: nat, d: int)
    ensures (v * 10 % U64 + d) % U64 == (v * 10 + d) % U64
  {
  }

  /** atodec */
  method AtoDec(s: string) returns (v: nat)
    ensures v == DecValue(s)
  {
    v := 0;
    var i := 0;
    while i < |s|
      invariant 0 <= i <= |s| && v == DecValue(s[..i])
    {
      assert s[..i + 1][..i] == s[..i];
      ModOfProduct(v, s[i] as int - '0' as int);
      v := v * 10 % U64;
      v := (v + (s[i] as int - '0' as int)) % U64;
      i := i + 1;
    }
    assert s[..i] == s;
  }

  lemma ModOfSum(v: nat, d: nat)
    ensures (v % U64 * 10 + d) % U64 == (v * 10 + d) % U64
  {
    var q := v / U64;
    assert v == q * U64 + v % U64;
    assert v * 10 + d == v % U64 * 10 + d + q * 10 * U64;
  }

  /** On digits, atodec computes the decimal value modulo 2^64. */
  lemma {:induction false} DecValueIsModular(s: string)
    requires forall i :: 0 <= i < |s| ==> '0' <= s[i] <= '9'
    ensures DecValue(s) == ValueOf(s, 10) % U64
    decreases |s|
  {
    if s != [] {
      DecValueIsModular(s[..|s| - 1]);
      ModOfSum(ValueOf(s[..|s| - 1], 10), (s[|s| - 1] - '0') as nat);
    }
  }

  lemma DecimalDigits(s: string)
    requires IsNumeral(s, 10)
    ensures forall i :: 0 <= i < |s| ==> '0' <= s[i] <= '9'
  {
  }

  /** atodec inverts the decimal numerals of itoa over the whole 64-bit range. */
  lemma AtoDecInvertsNumeral(val: nat)
    requires val < U64
    ensures forall i :: 0 <= i < |Numeral(val, 10)| ==> '0' <= Numeral(val, 10)[i] <= '9'
    ensures DecValue(Numeral(val, 10)) == val
  {
    hide Numeral, ValueOf, DecValue;
    NumeralIsExact(val, 10);
    DecimalDigits(Numeral(val, 10));
    DecValueIsModular(Numeral(val, 10));
  }
}
