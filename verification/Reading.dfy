/**
 What a reader of the formatter's output finds: the characters of every rendered argument, position
 by position, and the value that its digits spell.  Nothing here is stated through the functions
 that lay the argument out.
 */
module Reading {
  import opened Util
  import opened Buffers
  import opened Digits
  import opened Layout
  import opened Rendering

  // ----- Reading numerals -----

  /** The value of a digit; 16 for any other character. */
  function DigitOf(c: char): nat {
    match c
    case '0' => 0
    case '1' => 1
    case '2' => 2
    case '3' => 3
    case '4' => 4
    case '5' => 5
    case '6' => 6
    case '7' => 7
    case '8' => 8
    case '9' => 9
    case 'a' => 10
    case 'b' => 11
    case 'c' => 12
    case 'd' => 13
    case 'e' => 14
    case 'f' => 15
    case _ => 16
  }

  function ReadDigits(s: string, base: nat): nat {
    if s == "" then 0 else ReadDigits(s[..|s| - 1], base) * base + DigitOf(s[|s| - 1])
  }

  /** A leading '-' negates; a leading '+' or ' ' is dropped. */
  function ReadNumber(s: string, base: nat): int {
    if s == "" then 0
    else if s[0] == '-' then 0 - ReadDigits(s[1..], base)
    else if s[0] == '+' || s[0] == ' ' then ReadDigits(s[1..], base)
    else ReadDigits(s, base)
  }

  /** Digits of the base without a leading zero, except for zero itself, that spell the value. */
  predicate Spells(digits: string, val: nat, base: nat) {
    digits != "" && ReadDigits(digits, base) == val && (digits[0] == '0' ==> |digits| == 1) &&
    forall i :: 0 <= i < |digits| ==> DigitOf(digits[i]) < base
  }

  lemma DigitOfIsValue(c: char)
    ensures DigitOf(c) == DigitValue(c)
  {
  }

  lemma {:induction false} ReadDigitsIsValue(s: string, base: nat)
    ensures ReadDigits(s, base) == ValueOf(s, base)
    decreases |s|
  {
    hide DigitOf, DigitValue;
    if s != "" {
      ReadDigitsIsValue(s[..|s| - 1], base);
      DigitOfIsValue(s[|s| - 1]);
    }
  }

  lemma NumeralSpells(val: nat, base: nat)
    requires IsBase(base)
    ensures Spells(Numeral(val, base), val, base)
  {
    hide Numeral, ValueOf, ReadDigits, DigitOf, DigitValue;
    var digits := Numeral(val, base);
    NumeralIsExact(val, base);
    ReadDigitsIsValue(digits, base);
    forall i | 0 <= i < |digits|
      ensures DigitOf(digits[i]) < base
    {
      DigitOfIsValue(digits[i]);
    }
  }

  // ----- Numbers, position by position -----

  /** Every character of the text from one position to another is c. */
  predicate AllAre(t: string, from: int, to: int, c: char) {
    forall i :: from <= i < to && 0 <= i < |t| ==> t[i] == c
  }

  /** The fill character: the given one with an alignment, or else '0' under zero padding, or else a space. */
  predicate IsFill(info: Info, c: char) {
    if info.align != DefaultAlign && info.fill != '\0' then c == info.fill
    else c == if info.zeroPadding then '0' else ' '
  }

  /** How many fill characters stand in front, behind the sign, behind the prefix and at the end. */
  datatype Spread = Spread(front: nat, signed: nat, prefixed: nat, end: nat)

  function SpreadOf(f: Fill): Spread {
    Spread(f.left, f.afterSign, f.afterPrefix, f.right)
  }

  /** Where each alignment lets the fill stand. */
  predicate Aligned(info: Info, f: Spread) {
    match info.align
    case LeftAlign => f.front == 0 && f.signed == 0 && f.prefixed == 0
    case RightAlign => f.signed == 0 && f.prefixed == 0 && f.end == 0
    case CenterAlign => f.signed == 0 && f.prefixed == 0 && f.front <= f.end <= f.front + 1
    case AfterSignAlign => f.front == 0 && f.prefixed == 0 && f.end == 0
    case DefaultAlign =>
      f.signed == 0 && f.end == 0 && if info.zeroPadding then f.front == 0 else f.prefixed == 0
  }

  /**
   The text is a sign, a prefix and digits with the fill around them.  There is a sign for a negative
   number, and otherwise if one is asked for; there is a prefix in the alternate form but for base 10.
   */
  predicate NumberShape(t: string, info: Info, val: nat, base: nat, positive: bool, c: char, f: Spread) {
    var s := if !positive || info.sign != NegativeOnly then 1 else 0;
    var p := if info.alternate && base != 10 then 2 else 0;
    var prefixAt := f.front + s + f.signed;
    var digitsAt, digitsEnd := prefixAt + p + f.prefixed, |t| - f.end;
    digitsAt < digitsEnd && Spells(t[digitsAt..digitsEnd], val, base) &&
    |t| == Max(info.minWidth, s + p + (digitsEnd - digitsAt)) &&
    (s == 1 ==> t[f.front] == if !positive then '-' else if info.sign == BothSigns then '+' else ' ') &&
    (p == 2 ==> t[prefixAt] == '0' && t[prefixAt + 1] == if base == 2 then 'b' else if base == 8 then 'o' else 'x') &&
    Aligned(info, f) && IsFill(info, c) &&
    AllAre(t, 0, f.front, c) && AllAre(t, f.front + s, prefixAt, c) && AllAre(t, prefixAt + p, digitsAt, c) &&
    AllAre(t, digitsEnd, |t|, c)
  }

  lemma FirstPieces(a: string, b: string, c: string, d: string, rest: string)
    ensures var t := a + b + c + d + rest;
            t[0..|a|] == a && t[|a|..|a| + |b|] == b && t[|a| + |b|..|a| + |b| + |c|] == c &&
            t[|a| + |b| + |c|..|a| + |b| + |c| + |d|] == d && t[|a| + |b| + |c| + |d|..] == rest
  {
  }

  lemma LastPieces(start: string, e: string, f: string, g: string)
    ensures var t, k := start + (e + f + g), |start|;
            t[k..k + |e|] == e && t[k + |e|..k + |e| + |f|] == f && t[k + |e| + |f|..|t|] == g
  {
  }

  lemma Regroup(a: string, b: string, c: string, d: string, e: string, f: string, g: string)
    ensures a + b + c + d + e + f + g == a + b + c + d + (e + f + g)
    ensures |a + b + c + d| == |a| + |b| + |c| + |d| && |e + f + g| == |e| + |f| + |g|
  {
  }

  lemma RepeatedIs(t: string, from: nat, to: nat, c: char)
    requires from <= to <= |t| && t[from..to] == Repeat(c, to - from)
    ensures AllAre(t, from, to, c)
  {
    forall i | from <= i < to
      ensures t[i] == c
    {
      assert t[i] == t[from..to][i - from];
    }
  }

  /** The sign and the prefix, character by character. */
  lemma SignAndPrefix(info: Info, base: nat, positive: bool)
    requires IsBase(base)
    ensures SignText(info, positive) ==
            if !positive then "-"
            else if info.sign == BothSigns then "+" else if info.sign == LeadingSpace then " " else ""
    ensures PrefixText(info, base) ==
            if !info.alternate || base == 10 then ""
            else if base == 2 then "0b" else if base == 8 then "0o" else "0x"
  {
  }

  /** Where the pieces of an assembled number stand. */
  lemma AssembledPieces(f: Fill, sign: string, prefix: string, digits: string)
    ensures var t, i := Assemble(f, sign, prefix, digits), f.left + |sign|;
            var j := i + f.afterSign;
            var k := j + |prefix|;
            var l := k + f.afterPrefix;
            |t| == l + |digits| + f.right && t[0..f.left] == Repeat(f.c, f.left) && t[f.left..i] == sign &&
            t[i..j] == Repeat(f.c, f.afterSign) && t[j..k] == prefix && t[k..l] == Repeat(f.c, f.afterPrefix) &&
            t[l..l + |digits|] == digits && t[l + |digits|..|t|] == Repeat(f.c, f.right)
  {
    hide Repeat;
    var a, c, e, g := Repeat(f.c, f.left), Repeat(f.c, f.afterSign), Repeat(f.c, f.afterPrefix), Repeat(f.c, f.right);
    RepeatLength(f.c, f.left);
    RepeatLength(f.c, f.afterSign);
    RepeatLength(f.c, f.afterPrefix);
    RepeatLength(f.c, f.right);
    Regroup(a, sign, c, prefix, e, digits, g);
    FirstPieces(a, sign, c, prefix, e + digits + g);
    LastPieces(a + sign + c + prefix, e, digits, g);
  }

  /** The pieces of a number and the fill between them have the shape that the options ask for. */
  lemma AssembledShape(info: Info, val: nat, base: nat, positive: bool, digits: string, f: Fill)
    requires IsBase(base) && Spells(digits, val, base) && IsFill(info, f.c) && Aligned(info, SpreadOf(f))
    requires var (sign, prefix) := (SignText(info, positive), PrefixText(info, base));
             f.Total() + |sign| + |prefix| + |digits| == Max(info.minWidth, |sign| + |prefix| + |digits|)
    ensures var t := Assemble(f, SignText(info, positive), PrefixText(info, base), digits);
            NumberShape(t, info, val, base, positive, f.c, SpreadOf(f))
  {
    hide Spells, Aligned, IsFill, Repeat, AllAre, Assemble;
    var sign, prefix := SignText(info, positive), PrefixText(info, base);
    SignAndPrefix(info, base, positive);
    hide SignText, PrefixText;
    var t := Assemble(f, sign, prefix, digits);
    NotEmpty(digits, val, base);
    AssembledFill(f, sign, prefix, digits);
  }

  /** What stands where in an assembled number. */
  lemma AssembledFill(f: Fill, sign: string, prefix: string, digits: string)
    ensures var t, i := Assemble(f, sign, prefix, digits), f.left + |sign|;
            var j := i + f.afterSign;
            var k := j + |prefix|;
            var l := k + f.afterPrefix;
            |t| == l + |digits| + f.right && t[l..l + |digits|] == digits &&
            AllAre(t, 0, f.left, f.c) && AllAre(t, i, j, f.c) && AllAre(t, k, l, f.c) &&
            AllAre(t, l + |digits|, |t|, f.c) && (|sign| >= 1 ==> t[f.left] == sign[0]) &&
            (|prefix| >= 2 ==> t[j] == prefix[0] && t[j + 1] == prefix[1])
  {
    hide Repeat, AllAre, Assemble;
    var t := Assemble(f, sign, prefix, digits);
    AssembledPieces(f, sign, prefix, digits);
    var i, j := f.left + |sign|, f.left + |sign| + f.afterSign;
    var k := j + |prefix|;
    var l := k + f.afterPrefix;
    RepeatedIs(t, 0, f.left, f.c);
    RepeatedIs(t, i, j, f.c);
    RepeatedIs(t, k, l, f.c);
    RepeatedIs(t, l + |digits|, |t|, f.c);
    OneOrTwo(t, f.left, i, sign);
    OneOrTwo(t, j, k, prefix);
  }

  lemma NotEmpty(digits: string, val: nat, base: nat)
    requires Spells(digits, val, base)
    ensures digits != ""
  {
  }

  lemma OneOrTwo(t: string, from: nat, to: nat, piece: string)
    requires from <= to <= |t| && t[from..to] == piece
    ensures |piece| >= 1 ==> t[from] == piece[0]
    ensures |piece| >= 2 ==> t[from + 1] == piece[1]
  {
    assert forall i :: 0 <= i < |piece| ==> t[from..to][i] == t[from + i];
  }

  lemma PlacedWell(info: Info, count: nat)
    ensures var f := Place(info, count);
            Aligned(info, SpreadOf(f)) && IsFill(info, f.c) && f.Total() == count
  {
  }

  /** The shape of every number that is asked for, whatever its options. */
  lemma NumberByIndex(info: Info, val: nat, base: nat, positive: bool) returns (c: char, f: Spread)
    requires IsBase(base)
    ensures NumberShape(NumberText(info, val, base, positive), info, val, base, positive, c, f)
  {
    hide Numeral, Spells, Place, Assemble, SignText, PrefixText, NumberShape, Aligned, IsFill;
    var digits := Numeral(val, base);
    var content := |SignText(info, positive)| + |PrefixText(info, base)| + |digits|;
    var count := Max(info.minWidth, content) - content;
    var fill := Place(info, count);
    NumeralSpells(val, base);
    PlacedWell(info, count);
    AssembledShape(info, val, base, positive, digits, fill);
    c, f := fill.c, SpreadOf(fill);
  }

  /** The base that a type stands for. */
  function BaseMeant(kind: VarType): nat {
    match kind
    case Binary => 2
    case Octal => 8
    case LowHex => 16
    case _ => 10
  }

  /** The value that a type gives to an argument: d is signed. */
  function ValueMeant(kind: VarType, arg: nat): int {
    if kind == Decimal && arg >= 0x8000_0000_0000_0000 then arg - 0x1_0000_0000_0000_0000 else arg
  }

  function Distance(x: int): nat {
    if x < 0 then 0 - x else x
  }

  /** The text of a numeric argument has the shape of the value that its type gives it, in the type's base. */
  lemma NumberArgument(info: Info, arg: nat, mem: Memory) returns (c: char, f: Spread)
    requires arg < U64 && IsNumber(info.kind)
    ensures ArgText(info, arg, mem).Some?
    ensures var x := ValueMeant(info.kind, arg);
            NumberShape(ArgText(info, arg, mem).value, info, Distance(x), BaseMeant(info.kind), x >= 0, c, f)
  {
    hide NumberShape, NumberText;
    var x := SignedValue(info.kind, arg);
    c, f := NumberByIndex(info, Magnitude(x), BaseOf(info.kind), x >= 0);
  }

  /** Read back, the text of a number without any width is the argument's value, whatever its sign option. */
  lemma PlainReadsBack(kind: VarType, sign: Sign, arg: nat, mem: Memory)
    requires arg < U64 && IsNumber(kind)
    ensures var t := ArgText(NO_INFO.(kind := kind, sign := sign), arg, mem);
            t.Some? && ReadNumber(t.value, BaseMeant(kind)) == ValueMeant(kind, arg)
  {
    hide NumberShape, ArgText, ReadNumber;
    var info, x := NO_INFO.(kind := kind, sign := sign), ValueMeant(kind, arg);
    var c, f := NumberArgument(info, arg, mem);
    ShapeReads(ArgText(info, arg, mem).value, info, Distance(x), BaseMeant(kind), x >= 0, c, f);
  }

  lemma ShapeReads(t: string, info: Info, val: nat, base: nat, positive: bool, c: char, f: Spread)
    requires NumberShape(t, info, val, base, positive, c, f) && IsBase(base)
    requires info.minWidth == 0 && !info.alternate
    ensures ReadNumber(t, base) == if positive then val else 0 - val
  {
    hide ReadDigits, DigitOf, IsFill, Aligned, AllAre;
    var s := if !positive || info.sign != NegativeOnly then 1 else 0;
    var digits := t[f.front + s + f.signed + f.prefixed..|t| - f.end];
    assert f == Spread(0, 0, 0, 0);
    assert t[s..|t|] == t[s..] == digits && t[0..] == t;
    NoSignDigit();
    assert DigitOf(digits[0]) < base;
  }

  lemma NoSignDigit()
    ensures DigitOf('-') == 16 && DigitOf('+') == 16 && DigitOf(' ') == 16
  {
  }

  // ----- Strings, position by position -----

  /** How much of the string is shown. */
  function Shown(info: Info, s: string): nat {
    if info.precise == 0 || |s| < info.precise then |s| else info.precise
  }

  /**
   The text is the beginning of the string, as far as the precision goes, with the fill in front and at
   the end.  A left-aligned string has its fill in front, and a right-aligned one at the end.
   */
  predicate StringShape(t: string, info: Info, s: string, front: nat, end: nat) {
    var n := Shown(info, s);
    var c := if info.align != DefaultAlign && info.fill != '\0' then info.fill else ' ';
    |t| == front + n + end && |t| == Max(n, info.minWidth) &&
    (forall i :: 0 <= i < n ==> t[front + i] == s[i]) &&
    AllAre(t, 0, front, c) && AllAre(t, front + n, |t|, c) &&
    match info.align
    case RightAlign => front == 0
    case CenterAlign => front <= end <= front + 1
    case _ => end == 0
  }

  lemma ThreePieces(a: string, b: string, c: string)
    ensures var t := a + b + c;
            t[0..|a|] == a && t[|a|..|a| + |b|] == b && t[|a| + |b|..|t|] == c && |t| == |a| + |b| + |c|
  {
  }

  lemma StringPieces(info: Info, s: string, n: nat, fill: (nat, nat))
    requires n == Shown(info, s) && fill == StringFill(info, Max(n, info.minWidth) - n)
    ensures n <= |s| && StringText(info, s) ==
            Repeat(StringFillChar(info), fill.0) + s[..n] + Repeat(StringFillChar(info), fill.1)
  {
    hide Repeat, StringFill, StringFillChar;
    assert s[..|s|] == s;
  }

  lemma StringFillStands(info: Info, count: nat, fill: (nat, nat))
    requires fill == StringFill(info, count)
    ensures fill.0 + fill.1 == count
    ensures info.align == RightAlign ==> fill.0 == 0
    ensures info.align == CenterAlign ==> fill.0 <= fill.1 <= fill.0 + 1
    ensures info.align != RightAlign && info.align != CenterAlign ==> fill.1 == 0
  {
  }

  /** The shape of every string that is asked for. */
  lemma StringByIndex(info: Info, s: string) returns (front: nat, end: nat)
    ensures StringShape(StringText(info, s), info, s, front, end)
  {
    hide Repeat, AllAre, StringFill, StringText;
    var n, c := Shown(info, s), StringFillChar(info);
    var fill := StringFill(info, Max(n, info.minWidth) - n);
    front, end := fill.0, fill.1;
    StringPieces(info, s, n, fill);
    StringFillStands(info, Max(n, info.minWidth) - n, fill);
    FilledString(c, front, s[..n], end);
    forall i | 0 <= i < n
      ensures StringText(info, s)[front + i] == s[i]
    {
      assert s[..n][i] == s[i];
    }
  }

  lemma FilledString(c: char, front: nat, cut: string, end: nat)
    ensures var t := Repeat(c, front) + cut + Repeat(c, end);
            |t| == front + |cut| + end && AllAre(t, 0, front, c) && AllAre(t, front + |cut|, |t|, c) &&
            forall i :: 0 <= i < |cut| ==> t[front + i] == cut[i]
  {
    hide Repeat, AllAre;
    var t := Repeat(c, front) + cut + Repeat(c, end);
    RepeatLength(c, front);
    RepeatLength(c, end);
    ThreePieces(Repeat(c, front), cut, Repeat(c, end));
    RepeatedIs(t, 0, front, c);
    RepeatedIs(t, front + |cut|, |t|, c);
    forall i | 0 <= i < |cut|
      ensures t[front + i] == cut[i]
    {
      assert t[front + i] == t[front..front + |cut|][i];
    }
  }

  /** The text of a string argument that is not NULL. */
  lemma StringArgument(info: Info, arg: nat, mem: Memory) returns (front: nat, end: nat)
    requires info.kind == Text && arg != 0 && arg in mem
    ensures ArgText(info, arg, mem).Some?
    ensures StringShape(ArgText(info, arg, mem).value, info, mem[arg], front, end)
  {
    hide StringShape, StringText;
    front, end := StringByIndex(info, mem[arg]);
  }

  /** NULL and a missing type have no text. */
  lemma NoText(info: Info, arg: nat, mem: Memory)
    requires info.kind == NoType || (info.kind == Text && arg == 0)
    ensures ArgText(info, arg, mem) == None
  {
  }
}
