/**
 What a formatted argument looks like: the options of a format spec and the text that
 they ask for, without any buffer (src/string_util.c).
 */
module Layout {
  import opened Util
  import opened Buffers
  import opened Digits

  datatype Align = DefaultAlign | LeftAlign | RightAlign | AfterSignAlign | CenterAlign

  datatype Sign = NegativeOnly | BothSigns | LeadingSpace

  datatype VarType = NoType | Binary | Decimal | Octal | LowHex | Text

  /** fmt_info_t.  fill '\0' means that no fill character was given. */
  datatype Info = Info(kind: VarType, fill: char, alternate: bool, zeroPadding: bool, align: Align,
                       sign: Sign, minWidth: nat, precise: nat)

  const NO_INFO := Info(NoType, '\0', false, false, DefaultAlign, NegativeOnly, 0, 0)

  /** The error codes of the formatter. */
  datatype Status = OK | Truncated | InvalidFormat | MissingPlaceholder | MissingArgument

  // ----- Numbers -----

  function SignText(info: Info, positive: bool): string {
    if !positive then "-"
    else match info.sign
      case BothSigns => "+"
      case LeadingSpace => " "
      case NegativeOnly => ""
  }

  function PrefixText(info: Info, base: nat): string {
    if !info.alternate then ""
    else if base == 2 then "0b"
    else if base == 8 then "0o"
    else if base == 16 then "0x"
    else ""
  }

  /** How many fill characters go where. */
  datatype Fill = Fill(c: char, left: nat, afterSign: nat, afterPrefix: nat, right: nat) {
    function Total(): nat {
      left + afterSign + afterPrefix + right
    }
  }

  function FillChar(info: Info): char {
    if info.align != DefaultAlign && info.fill != '\0' then info.fill
    else if info.zeroPadding then '0'
    else ' '
  }

  /** Where each alignment puts the fill of a number. */
  function Place(info: Info, count: nat): (f: Fill)
    ensures f.Total() == count
  {
    var c := FillChar(info);
    match info.align
    case LeftAlign => Fill(c, 0, 0, 0, count)
    case RightAlign => Fill(c, count, 0, 0, 0)
    case CenterAlign => Fill(c, count / 2, 0, 0, count - count / 2)
    case AfterSignAlign => Fill(c, 0, count, 0, 0)
    case DefaultAlign => if info.zeroPadding then Fill(c, 0, 0, count, 0) else Fill(c, count, 0, 0, 0)
  }

  function Assemble(f: Fill, sign: string, prefix: string, digits: string): string {
    Repeat(f.c, f.left) + sign + Repeat(f.c, f.afterSign) + prefix + Repeat(f.c, f.afterPrefix) + digits +
    Repeat(f.c, f.right)
  }

  /** The text of a number: sign, prefix and digits, filled up to the minimum width. */
  function NumberText(info: Info, val: nat, base: nat, positive: bool): string
    requires IsBase(base)
  {
    var sign, prefix, digits := SignText(info, positive), PrefixText(info, base), Numeral(val, base);
    var content := |sign| + |prefix| + |digits|;
    Assemble(Place(info, Max(info.minWidth, content) - content), sign, prefix, digits)
  }

  /** The number of fill characters that itoa computes, in 64-bit arithmetic. */
  function PaddingCount(info: Info, digits: nat, base: nat, positive: bool): nat {
    var count := Max(info.minWidth, digits) - digits;
    var lessPrefix := if count > 0 && info.alternate && base != 10 then (count - 2 + U64) % U64 else count;
    if lessPrefix > 0 && SignText(info, positive) != "" then lessPrefix - 1 else lessPrefix
  }

  /** The text that itoa lays out when the buffer is large enough. */
  function ItoaText(info: Info, val: nat, base: nat, positive: bool): string
    requires IsBase(base)
  {
    var digits := Numeral(val, base);
    Assemble(Place(info, PaddingCount(info, |digits|, base, positive)),
             SignText(info, positive), PrefixText(info, base), digits)
  }

  /** The one case in which subtracting the prefix wraps around: two characters from one. */
  predicate PrefixWraps(info: Info, digits: nat, base: nat) {
    info.alternate && base != 10 && info.minWidth == digits + 1
  }

  /**
   itoa produces the text of the number, and exactly the requested width, if and only if
   the prefix adjustment does not wrap.
   */
  lemma ItoaTextIsNumberText(info: Info, val: nat, base: nat, positive: bool)
    requires IsBase(base) && val < U64 && info.minWidth < U64
    ensures var digits := Numeral(val, base);
            var content := |SignText(info, positive)| + |PrefixText(info, base)| + |digits|;
            var text := ItoaText(info, val, base, positive);
            |NumberText(info, val, base, positive)| == Max(info.minWidth, content) &&
            (text == NumberText(info, val, base, positive) <==> !PrefixWraps(info, |digits|, base)) &&
            (|text| == Max(info.minWidth, content) <==> !PrefixWraps(info, |digits|, base)) &&
            (PrefixWraps(info, |digits|, base) ==> U64 <= |text|)
  {
    hide Numeral, Repeat, Place, Assemble, SignText, PrefixText, PaddingCount;
    NumeralIsExact(val, base);
    var digits := Numeral(val, base);
    var sign, prefix := SignText(info, positive), PrefixText(info, base);
    var content := |sign| + |prefix| + |digits|;
    var count := PaddingCount(info, |digits|, base, positive);
    AssembledLength(Place(info, count), sign, prefix, digits);
    AssembledLength(Place(info, Max(info.minWidth, content) - content), sign, prefix, digits);
    PaddingIsExact(info, |digits|, base, positive);
  }

  lemma SevenInHexadecimal()
    ensures Numeral(7, 16) == "7"
  {
    NumeralStep(7, 16);
  }

  lemma Unfilled(f: Fill, prefix: string, digits: string)
    requires f.Total() == 0
    ensures Assemble(f, "", prefix, digits) == prefix + digits
  {
  }

  /** Seven in hexadecimal with its prefix, two characters wide at least: the text has no end in practice. */
  lemma PrefixWrapsExample()
    ensures var info := NO_INFO.(kind := LowHex, alternate := true, minWidth := 2);
            U64 <= |ItoaText(info, 7, 16, true)| && NumberText(info, 7, 16, true) == "0x7"
  {
    hide Repeat, Numeral, ItoaText, Place, Assemble;
    var info := NO_INFO.(kind := LowHex, alternate := true, minWidth := 2);
    SevenInHexadecimal();
    ItoaTextIsNumberText(info, 7, 16, true);
    assert NumberText(info, 7, 16, true) == Assemble(Place(info, 0), "", "0x", "7");
    Unfilled(Place(info, 0), "0x", "7");
  }

  lemma PaddingIsExact(info: Info, digits: nat, base: nat, positive: bool)
    requires IsBase(base) && 0 < digits && info.minWidth < U64
    ensures var content := |SignText(info, positive)| + |PrefixText(info, base)| + digits;
            var count := PaddingCount(info, digits, base, positive);
            (!PrefixWraps(info, digits, base) ==> count == Max(info.minWidth, content) - content) &&
            (PrefixWraps(info, digits, base) ==> count + content >= U64 && 0 < count && info.minWidth <= content)
  {
  }

  lemma AssembledLength(f: Fill, sign: string, prefix: string, digits: string)
    ensures |Assemble(f, sign, prefix, digits)| == f.Total() + |sign| + |prefix| + |digits|
  {
  }

  // ----- Strings -----

  /** Where each alignment puts the fill of a string: stringtoa has its own table. */
  function StringFill(info: Info, count: nat): (f: (nat, nat))
    ensures f.0 + f.1 == count
  {
    match info.align
    case RightAlign => (0, count)
    case CenterAlign => (count / 2, count - count / 2)
    case _ => (count, 0)
  }

  function StringFillChar(info: Info): char {
    if info.align != DefaultAlign && info.fill != '\0' then info.fill else ' '
  }

  /** The text of a string argument: cut to the precision, filled up to the minimum width. */
  function StringText(info: Info, s: string): string {
    var cut := if info.precise != 0 then s[..Min(|s|, info.precise)] else s;
    var (left, right) := StringFill(info, Max(|cut|, info.minWidth) - |cut|);
    Repeat(StringFillChar(info), left) + cut + Repeat(StringFillChar(info), right)
  }
}
