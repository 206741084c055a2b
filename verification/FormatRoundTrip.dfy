/**
 The grammar of format descriptors as include/string_util.h documents it, and the proof
 that the stage machine of get_next_fmt recovers every descriptor written in it.
 */
module FormatRoundTrip {
  import opened Util
  import opened Buffers
  import opened Digits
  import opened Layout
  import opened FormatSpec

  // ----- Writing a descriptor -----

  function AlignText(info: Info): string {
    match info.align
    case DefaultAlign => ""
    case LeftAlign => FillText(info) + "<"
    case RightAlign => FillText(info) + ">"
    case AfterSignAlign => FillText(info) + "="
    case CenterAlign => FillText(info) + "^"
  }

  function FillText(info: Info): string {
    if info.fill == '\0' then "" else [info.fill]
  }

  /** The default sign may be written out as '-' or left away. */
  function SignSpec(info: Info, dash: bool): string {
    match info.sign
    case BothSigns => "+"
    case LeadingSpace => " "
    case NegativeOnly => if dash then "-" else ""
  }

  function WidthSpec(info: Info): string {
    if info.minWidth == 0 then "" else Numeral(info.minWidth, 10)
  }

  function PreciseSpec(info: Info): string {
    if info.precise == 0 then "" else "." + Numeral(info.precise, 10)
  }

  function TypeSpec(info: Info): string {
    match info.kind
    case Binary => "b"
    case Decimal => "d"
    case Octal => "o"
    case LowHex => "x"
    case Text => "s"
    case NoType => ""
  }

  /** The options that can be spelled out: a fill only with an alignment, and 64-bit numbers. */
  predicate Spellable(info: Info) {
    (info.align == DefaultAlign ==> info.fill == '\0') && info.minWidth < U64 && info.precise < U64
  }

  /** The descriptors that the parser accepts also have a type. */
  predicate Writable(info: Info) {
    Spellable(info) && info.kind != NoType
  }

  /** What is read back: a colon in front of the alignment is never taken for a fill. */
  function Recovered(info: Info): Info {
    if info.fill == ':' then info.(fill := '\0') else info
  }

  // ----- Reading it back, piece by piece -----

  /** The string continues with this text at position i. */
  ghost predicate Follows(fmt: string, i: nat, text: string) {
    i + |text| <= |fmt| && fmt[i..i + |text|] == text
  }

  lemma FollowsSplit(fmt: string, i: nat, s: string, t: string)
    requires Follows(fmt, i, s + t)
    ensures Follows(fmt, i, s) && Follows(fmt, i + |s|, t)
  {
    assert fmt[i..i + |s|] == (s + t)[..|s|];
    assert fmt[i + |s|..i + |s| + |t|] == (s + t)[|s|..];
  }

  lemma FollowsFirst(fmt: string, i: nat, text: string)
    requires Follows(fmt, i, text) && text != ""
    ensures i < |fmt| && fmt[i] == text[0] && Follows(fmt, i + 1, text[1..])
  {
    assert text == [text[0]] + text[1..];
    FollowsSplit(fmt, i, [text[0]], text[1..]);
  }

  /** Characters before an opening brace are literal. */
  lemma {:induction false} ReadLiteral(fmt: string, i: nat, text: string, p: Parse)
    requires Follows(fmt, i, text + "{") && '{' !in text
    ensures Scan(fmt, i, STAGE_START, p, 0) == Scan(fmt, i + |text| + 1, STAGE_SPECIFIER_START, p, i + |text|)
    decreases |text|
  {
    FollowsFirst(fmt, i, text + "{");
    if text != "" {
      assert (text + "{")[1..] == text[1..] + "{";
      ReadLiteral(fmt, i + 1, text[1..], p);
    }
  }

  /** Characters between the brace and the colon are ignored. */
  lemma {:induction false} ReadColon(fmt: string, i: nat, text: string, p: Parse, literal: nat)
    requires Follows(fmt, i, text + ":") && ':' !in text
    ensures Scan(fmt, i, STAGE_SPECIFIER_START, p, literal) == Scan(fmt, i + |text| + 1, STAGE_ALIGN, p, literal)
    decreases |text|
  {
    FollowsFirst(fmt, i, text + ":");
    if text != "" {
      assert (text + ":")[1..] == text[1..] + ":";
      ReadColon(fmt, i + 1, text[1..], p, literal);
    }
  }

  /** One step of the alignment stage. */
  lemma PassOrTake(fmt: string, i: nat, p: Parse, literal: nat)
    requires 0 < i < |fmt|
    ensures var aligned := p.info.(align := AlignOf(fmt[i]));
            Scan(fmt, i, STAGE_ALIGN, p, literal) ==
            if IsAlign(At(fmt, i + 1)) then Scan(fmt, i + 1, STAGE_ALIGN, p, literal)
            else if !IsAlign(fmt[i]) then Scan(fmt, i, STAGE_SIGN, p, literal)
            else Scan(fmt, i + 1, STAGE_SIGN,
                      p.(info := if fmt[i - 1] == ':' then aligned else aligned.(fill := fmt[i - 1])), literal)
  {
  }

  lemma ReadAlign(fmt: string, i: nat, info: Info, p: Parse, literal: nat)
    requires Spellable(info) && 0 < i && Follows(fmt, i, AlignText(info)) && At(fmt, i - 1) == ':'
    requires i + |AlignText(info)| < |fmt| && !IsAlign(At(fmt, i + |AlignText(info)|))
    requires info.align == DefaultAlign ==> !IsAlign(At(fmt, i + 1))
    requires p.info.align == DefaultAlign && p.info.fill == '\0'
    ensures Scan(fmt, i, STAGE_ALIGN, p, literal) ==
            Scan(fmt, i + |AlignText(info)|, STAGE_SIGN,
                 p.(info := p.info.(align := info.align, fill := Recovered(info).fill)), literal)
  {
    hide Follows, Scan;
    if info.align != DefaultAlign {
      FollowsFirst(fmt, i, AlignText(info));
      PassOrTake(fmt, i, p, literal);
      if info.fill != '\0' {
        FollowsFirst(fmt, i + 1, AlignText(info)[1..]);
        PassOrTake(fmt, i + 1, p, literal);
      }
    } else {
      PassOrTake(fmt, i, p, literal);
    }
  }

  predicate IsSign(c: char) {
    c == '+' || c == '-' || c == ' '
  }

  lemma ReadSign(fmt: string, i: nat, info: Info, dash: bool, p: Parse, literal: nat)
    requires Follows(fmt, i, SignSpec(info, dash)) && i < |fmt| && p.info.sign == NegativeOnly
    requires SignSpec(info, dash) == "" ==> !IsSign(fmt[i])
    ensures Scan(fmt, i, STAGE_SIGN, p, literal) ==
            Scan(fmt, i + |SignSpec(info, dash)|, STAGE_ALTERNATIVE, p.(info := p.info.(sign := info.sign)), literal)
  {
    if SignSpec(info, dash) != "" {
      FollowsFirst(fmt, i, SignSpec(info, dash));
    }
  }

  lemma ReadAlternative(fmt: string, i: nat, on: bool, p: Parse, literal: nat)
    requires i < |fmt| && (fmt[i] == '#' <==> on) && !p.info.alternate
    ensures Scan(fmt, i, STAGE_ALTERNATIVE, p, literal) ==
            Scan(fmt, if on then i + 1 else i, STAGE_ZERO_PADDING, p.(info := p.info.(alternate := on)), literal)
  {
  }

  lemma ReadZero(fmt: string, i: nat, on: bool, p: Parse, literal: nat)
    requires i < |fmt| && (fmt[i] == '0' <==> on) && !p.info.zeroPadding
    ensures Scan(fmt, i, STAGE_ZERO_PADDING, p, literal) ==
            Scan(fmt, if on then i + 1 else i, STAGE_MINWIDTH, p.(info := p.info.(zeroPadding := on)), literal)
  {
  }

  /** Digits are consumed greedily; the last one stores the value of all of them. */
  lemma {:induction false} ReadWidthDigits(fmt: string, from: nat, i: nat, end: nat, p: Parse, literal: nat)
    requires from <= i < end < |fmt| && !IsDigit(fmt[end])
    requires forall k :: from <= k < end ==> IsDigit(fmt[k])
    requires p.widthStart == if i == from then None else Some(from)
    ensures Scan(fmt, i, STAGE_MINWIDTH, p, literal) ==
            Scan(fmt, end, STAGE_PRECISE,
                 p.(widthStart := None, info := p.info.(minWidth := DecValue(fmt[from..end]))), literal)
    decreases end - i
  {
    if i + 1 < end {
      ReadWidthDigits(fmt, from, i + 1, end, p.(widthStart := Some(from)), literal);
    }
  }

  lemma {:induction false} ReadPreciseDigits(fmt: string, from: nat, i: nat, end: nat, p: Parse, literal: nat)
    requires from <= i < end < |fmt| && !IsDigit(fmt[end])
    requires forall k :: from <= k < end ==> IsDigit(fmt[k])
    requires p.preciseStart == if i == from then None else Some(from)
    ensures Scan(fmt, i, STAGE_PRECISE, p, literal) ==
            Scan(fmt, end, STAGE_TYPE,
                 p.(preciseStart := None, info := p.info.(precise := DecValue(fmt[from..end]))), literal)
    decreases end - i
  {
    if i + 1 < end {
      ReadPreciseDigits(fmt, from, i + 1, end, p.(preciseStart := Some(from)), literal);
    }
  }

  lemma NumeralFollows(fmt: string, i: nat, n: nat)
    requires n < U64 && Follows(fmt, i, Numeral(n, 10))
    ensures var end := i + |Numeral(n, 10)|;
            i < end && DecValue(fmt[i..end]) == n && (forall k :: i <= k < end ==> IsDigit(fmt[k])) &&
            (0 < n ==> fmt[i] != '0')
  {
    hide Numeral;
    AtoDecInvertsNumeral(n);
    NumeralIsExact(n, 10);
    forall k | i <= k < i + |Numeral(n, 10)|
      ensures fmt[k] == Numeral(n, 10)[k - i]
    {
      assert fmt[k] == fmt[i..i + |Numeral(n, 10)|][k - i];
    }
  }

  lemma ReadWidth(fmt: string, i: nat, info: Info, p: Parse, literal: nat)
    requires Spellable(info) && Follows(fmt, i, WidthSpec(info)) && p.widthStart == None && p.info.minWidth == 0
    requires i + |WidthSpec(info)| < |fmt| && !IsDigit(fmt[i + |WidthSpec(info)|])
    ensures Scan(fmt, i, STAGE_MINWIDTH, p, literal) ==
            Scan(fmt, i + |WidthSpec(info)|, STAGE_PRECISE, p.(info := p.info.(minWidth := info.minWidth)), literal)
  {
    hide Numeral;
    if info.minWidth > 0 {
      NumeralFollows(fmt, i, info.minWidth);
      ReadWidthDigits(fmt, i, i, i + |WidthSpec(info)|, p, literal);
    }
  }

  lemma ReadPrecise(fmt: string, i: nat, info: Info, p: Parse, literal: nat)
    requires Spellable(info) && Follows(fmt, i, PreciseSpec(info)) && p.preciseStart == None && p.info.precise == 0
    requires i + |PreciseSpec(info)| < |fmt| && !IsDigit(fmt[i + |PreciseSpec(info)|])
    requires info.precise == 0 ==> fmt[i] != '.'
    ensures Scan(fmt, i, STAGE_PRECISE, p, literal) ==
            Scan(fmt, i + |PreciseSpec(info)|, STAGE_TYPE, p.(info := p.info.(precise := info.precise)), literal)
  {
    hide Numeral, Scan, Follows;
    if info.precise > 0 {
      var digits := Numeral(info.precise, 10);
      assert PreciseSpec(info) == "." + digits && PreciseSpec(info)[1..] == digits;
      FollowsFirst(fmt, i, PreciseSpec(info));
      NumeralFollows(fmt, i + 1, info.precise);
      PointOrDigits(fmt, i, p, literal);
      ReadPreciseDigits(fmt, i + 1, i + 1, i + |PreciseSpec(info)|, p, literal);
    } else {
      PointOrDigits(fmt, i, p, literal);
    }
  }

  /** The point in front of the precision is passed over; without it and without digits there is none. */
  lemma PointOrDigits(fmt: string, i: nat, p: Parse, literal: nat)
    requires i < |fmt| && p.preciseStart == None
    ensures fmt[i] == '.' && IsDigit(At(fmt, i + 1)) ==>
              Scan(fmt, i, STAGE_PRECISE, p, literal) == Scan(fmt, i + 1, STAGE_PRECISE, p, literal)
    ensures fmt[i] != '.' && !IsDigit(fmt[i]) ==>
              Scan(fmt, i, STAGE_PRECISE, p, literal) == Scan(fmt, i, STAGE_TYPE, p, literal)
  {
  }

  lemma {:induction false} ReadEnd(fmt: string, i: nat, spaces: nat, p: Parse, literal: nat)
    requires Follows(fmt, i, Repeat(' ', spaces) + "}")
    ensures Scan(fmt, i, STAGE_END, p, literal) == Parsed(OK, p.info, i + spaces + 1, literal, false)
    decreases spaces
  {
    FollowsFirst(fmt, i, Repeat(' ', spaces) + "}");
    if spaces > 0 {
      assert (Repeat(' ', spaces) + "}")[1..] == Repeat(' ', spaces - 1) + "}";
      ReadEnd(fmt, i + 1, spaces - 1, p, literal);
    }
  }

  // ----- The whole descriptor, from its end backwards -----

  function FromTypeText(info: Info, spaces: nat): string {
    TypeSpec(info) + (Repeat(' ', spaces) + "}")
  }

  function FromPreciseText(info: Info, spaces: nat): string {
    PreciseSpec(info) + FromTypeText(info, spaces)
  }

  function FromWidthText(info: Info, spaces: nat): string {
    WidthSpec(info) + FromPreciseText(info, spaces)
  }

  function FromZeroText(info: Info, spaces: nat): string {
    (if info.zeroPadding then "0" else "") + FromWidthText(info, spaces)
  }

  function FromAlternativeText(info: Info, spaces: nat): string {
    (if info.alternate then "#" else "") + FromZeroText(info, spaces)
  }

  function FromSignText(info: Info, dash: bool, spaces: nat): string {
    SignSpec(info, dash) + FromAlternativeText(info, spaces)
  }

  /** [[fill]align][sign][#][0][minimumwidth][.precision][type], then spaces and the closing brace. */
  function SpecText(info: Info, dash: bool, spaces: nat): string {
    AlignText(info) + FromSignText(info, dash, spaces)
  }

  predicate IsTypeChar(c: char) {
    c == 'b' || c == 'd' || c == 'o' || c == 'x' || c == 's'
  }

  /** A descriptor ends with its type, or without one with spaces and the brace. */
  predicate IsTail(c: char, info: Info) {
    if info.kind == NoType then c == ' ' || c == '}' else IsTypeChar(c) && TypeOf(c) == info.kind
  }

  lemma FirstOfType(info: Info, spaces: nat)
    ensures FromTypeText(info, spaces) != "" && IsTail(FromTypeText(info, spaces)[0], info)
    ensures info.kind != NoType ==> |TypeSpec(info)| == 1
    ensures info.kind == NoType ==> FromTypeText(info, spaces) == Repeat(' ', spaces) + "}"
  {
  }

  lemma FirstOfPrecise(info: Info, spaces: nat)
    ensures FromPreciseText(info, spaces) != ""
    ensures var c := FromPreciseText(info, spaces)[0]; if info.precise == 0 then IsTail(c, info) else c == '.'
  {
    hide Numeral, Repeat;
    FirstOfType(info, spaces);
    assert info.precise == 0 ==> FromPreciseText(info, spaces) == FromTypeText(info, spaces);
  }

  lemma FirstOfWidth(info: Info, spaces: nat)
    requires Spellable(info)
    ensures FromWidthText(info, spaces) != ""
    ensures var c := FromWidthText(info, spaces)[0]; '1' <= c <= '9' || c == '.' || IsTail(c, info)
  {
    hide Numeral, FromPreciseText;
    FirstOfPrecise(info, spaces);
    if info.minWidth > 0 {
      NumeralIsExact(info.minWidth, 10);
      AtoDecInvertsNumeral(info.minWidth);
    } else {
      assert FromWidthText(info, spaces) == FromPreciseText(info, spaces);
    }
  }

  /** Without a sign, '#', '0', width, precision or type nothing but the end is left. */
  predicate IsBare(info: Info) {
    info.kind == NoType && !info.alternate && !info.zeroPadding && info.minWidth == 0 && info.precise == 0
  }

  lemma BareText(info: Info, spaces: nat)
    requires IsBare(info)
    ensures FromAlternativeText(info, spaces) == Repeat(' ', spaces) + "}"
  {
  }

  lemma FirstOfSign(info: Info, dash: bool, spaces: nat)
    requires Spellable(info)
    ensures FromAlternativeText(info, spaces) != ""
    ensures !IsBare(info) ==> !IsSign(FromAlternativeText(info, spaces)[0])
    ensures FromAlternativeText(info, spaces)[0] == '#' <==> info.alternate
    ensures FromZeroText(info, spaces) != "" && (FromZeroText(info, spaces)[0] == '0' <==> info.zeroPadding)
  {
    hide Numeral, Repeat;
    FirstOfWidth(info, spaces);
    FirstOfPrecise(info, spaces);
    FirstOfType(info, spaces);
    if !info.zeroPadding {
      assert FromZeroText(info, spaces) == FromWidthText(info, spaces);
    }
    if !info.alternate {
      assert FromAlternativeText(info, spaces) == FromZeroText(info, spaces);
    }
    if info.minWidth > 0 {
      AtoDecInvertsNumeral(info.minWidth);
      NumeralIsExact(info.minWidth, 10);
    }
  }

  /** What the machine reports at the end of a descriptor: its options, or an error if it has no type. */
  ghost predicate Reads(r: Parsed, info: Info, recovered: Info, end: nat, literal: nat) {
    if info.kind == NoType then r.status == InvalidFormat else r == Parsed(OK, recovered, end, literal, false)
  }

  /** Where no type follows any more, no stage up to the type accepts the end; a space may pass for a sign first. */
  lemma {:induction false} EndFails(fmt: string, i: nat, stage: nat, p: Parse, literal: nat, spaces: nat)
    requires STAGE_SIGN <= stage <= STAGE_TYPE && Follows(fmt, i, Repeat(' ', spaces) + "}")
    ensures Scan(fmt, i, stage, p, literal).status == InvalidFormat
    decreases STAGE_TYPE - stage
  {
    FollowsFirst(fmt, i, Repeat(' ', spaces) + "}");
    if stage == STAGE_SIGN && spaces > 0 {
      assert (Repeat(' ', spaces) + "}")[1..] == Repeat(' ', spaces - 1) + "}";
      EndFails(fmt, i + 1, stage + 1, p.(info := p.info.(sign := LeadingSpace)), literal, spaces - 1);
    } else if stage < STAGE_TYPE {
      EndFails(fmt, i, stage + 1, p, literal, spaces);
    }
  }

  lemma ReadFromType(fmt: string, i: nat, info: Info, spaces: nat, p: Parse, literal: nat)
    requires Follows(fmt, i, FromTypeText(info, spaces))
    ensures Reads(Scan(fmt, i, STAGE_TYPE, p, literal), info, p.info.(kind := info.kind),
                  i + |FromTypeText(info, spaces)|, literal)
  {
    hide TypeSpec, Repeat, Follows;
    FirstOfType(info, spaces);
    if info.kind == NoType {
      EndFails(fmt, i, STAGE_TYPE, p, literal, spaces);
      return;
    }
    RepeatLength(' ', spaces);
    FollowsSplit(fmt, i, TypeSpec(info), Repeat(' ', spaces) + "}");
    FollowsFirst(fmt, i, FromTypeText(info, spaces));
    ReadEnd(fmt, i + 1, spaces, p.(info := p.info.(kind := info.kind)), literal);
  }

  lemma ReadFromPrecise(fmt: string, i: nat, info: Info, spaces: nat, p: Parse, literal: nat)
    requires Spellable(info) && Follows(fmt, i, FromPreciseText(info, spaces))
    requires p.preciseStart == None && p.info.precise == 0
    ensures Reads(Scan(fmt, i, STAGE_PRECISE, p, literal), info, p.info.(precise := info.precise, kind := info.kind),
                  i + |FromPreciseText(info, spaces)|, literal)
  {
    hide PreciseSpec, FromTypeText, Scan, Follows;
    FirstOfType(info, spaces);
    FirstOfPrecise(info, spaces);
    FollowsFirst(fmt, i, FromPreciseText(info, spaces));
    FollowsSplit(fmt, i, PreciseSpec(info), FromTypeText(info, spaces));
    FollowsFirst(fmt, i + |PreciseSpec(info)|, FromTypeText(info, spaces));
    ReadPrecise(fmt, i, info, p, literal);
    ReadFromType(fmt, i + |PreciseSpec(info)|, info, spaces, p.(info := p.info.(precise := info.precise)), literal);
  }

  lemma ReadFromWidth(fmt: string, i: nat, info: Info, spaces: nat, p: Parse, literal: nat)
    requires Spellable(info) && Follows(fmt, i, FromWidthText(info, spaces))
    requires p.widthStart == None && p.preciseStart == None && p.info.precise == 0 && p.info.minWidth == 0
    ensures Reads(Scan(fmt, i, STAGE_MINWIDTH, p, literal), info,
                  p.info.(minWidth := info.minWidth, precise := info.precise, kind := info.kind),
                  i + |FromWidthText(info, spaces)|, literal)
  {
    hide WidthSpec, FromPreciseText, Scan, Follows;
    FirstOfPrecise(info, spaces);
    FollowsSplit(fmt, i, WidthSpec(info), FromPreciseText(info, spaces));
    FollowsFirst(fmt, i + |WidthSpec(info)|, FromPreciseText(info, spaces));
    ReadWidth(fmt, i, info, p, literal);
    ReadFromPrecise(fmt, i + |WidthSpec(info)|, info, spaces, p.(info := p.info.(minWidth := info.minWidth)), literal);
  }

  lemma ReadFromAlternative(fmt: string, i: nat, info: Info, spaces: nat, p: Parse, literal: nat)
    requires Spellable(info) && Follows(fmt, i, FromAlternativeText(info, spaces))
    requires p.widthStart == None && p.preciseStart == None && p.info.precise == 0 && p.info.minWidth == 0
    requires !p.info.alternate && !p.info.zeroPadding
    ensures Reads(Scan(fmt, i, STAGE_ALTERNATIVE, p, literal), info,
                  info.(align := p.info.align, fill := p.info.fill, sign := p.info.sign),
                  i + |FromAlternativeText(info, spaces)|, literal)
  {
    hide FromWidthText, Scan, Follows;
    FirstOfSign(info, false, spaces);
    FollowsFirst(fmt, i, FromAlternativeText(info, spaces));
    ReadAlternative(fmt, i, info.alternate, p, literal);
    var j := if info.alternate then i + 1 else i;
    var q := p.(info := p.info.(alternate := info.alternate));
    FollowsSplit(fmt, i, if info.alternate then "#" else "", FromZeroText(info, spaces));
    FollowsFirst(fmt, j, FromZeroText(info, spaces));
    ReadZero(fmt, j, info.zeroPadding, q, literal);
    var k := if info.zeroPadding then j + 1 else j;
    FollowsSplit(fmt, j, if info.zeroPadding then "0" else "", FromWidthText(info, spaces));
    ReadFromWidth(fmt, k, info, spaces, q.(info := q.info.(zeroPadding := info.zeroPadding)), literal);
  }

  lemma ReadFromSign(fmt: string, i: nat, info: Info, dash: bool, spaces: nat, p: Parse, literal: nat)
    requires Spellable(info) && Follows(fmt, i, FromSignText(info, dash, spaces))
    requires p.widthStart == None && p.preciseStart == None
    requires p.info == NO_INFO.(align := info.align, fill := info.fill)
    ensures Reads(Scan(fmt, i, STAGE_SIGN, p, literal), info, info, i + |FromSignText(info, dash, spaces)|, literal)
  {
    hide FromAlternativeText, SignSpec, Scan, Spellable, Follows;
    var rest, j := FromAlternativeText(info, spaces), i + |SignSpec(info, dash)|;
    FirstOfSign(info, dash, spaces);
    FollowsSplit(fmt, i, SignSpec(info, dash), rest);
    FollowsFirst(fmt, j, rest);
    if IsBare(info) && SignSpec(info, dash) == "" {
      BareText(info, spaces);
      EndFails(fmt, i, STAGE_SIGN, p, literal, spaces);
      return;
    }
    ReadSign(fmt, i, info, dash, p, literal);
    var q := p.(info := p.info.(sign := info.sign));
    assert info.(align := q.info.align, fill := q.info.fill, sign := q.info.sign) == info;
    ReadFromAlternative(fmt, j, info, spaces, q, literal);
  }

  predicate NoAlign(s: string) {
    forall k :: 0 <= k < |s| ==> !IsAlign(s[k])
  }

  /** After the alignment no character can be mistaken for another one. */
  lemma NoAlignAfterwards(info: Info, dash: bool, spaces: nat)
    requires Spellable(info)
    ensures NoAlign(FromSignText(info, dash, spaces))
  {
    hide Numeral;
    AtoDecInvertsNumeral(info.minWidth);
    AtoDecInvertsNumeral(info.precise);
    assert NoAlign(TypeSpec(info)) && NoAlign(Repeat(' ', spaces) + "}");
    assert NoAlign(FromTypeText(info, spaces));
    assert NoAlign(PreciseSpec(info)) && NoAlign(WidthSpec(info)) && NoAlign(SignSpec(info, dash));
  }

  /** The descriptor ends with a brace, and is longer than it unless it says nothing at all. */
  lemma SpecEnds(info: Info, dash: bool, spaces: nat)
    ensures var rest := FromSignText(info, dash, spaces);
            rest != "" && rest[|rest| - 1] == '}' && (info.kind != NoType ==> |rest| >= 2)
  {
    hide Numeral, Repeat;
  }

  lemma TypedIsLonger(info: Info, dash: bool, spaces: nat)
    requires info.kind != NoType
    ensures |SpecText(info, dash, spaces)| >= 2
  {
    hide FromSignText;
    SpecEnds(info, dash, spaces);
  }

  /** A descriptor that says nothing, and an alignment right behind it. */
  predicate AlignFollows(spec: string, fmt: string, i: nat) {
    spec == "}" && IsAlign(At(fmt, i + 1))
  }

  lemma ReadSpec(fmt: string, i: nat, info: Info, dash: bool, spaces: nat, literal: nat)
    requires Spellable(info) && 0 < i && At(fmt, i - 1) == ':' && Follows(fmt, i, SpecText(info, dash, spaces))
    requires !AlignFollows(SpecText(info, dash, spaces), fmt, i)
    ensures Reads(Scan(fmt, i, STAGE_ALIGN, START_PARSE, literal), info, Recovered(info),
                  i + |SpecText(info, dash, spaces)|, literal)
  {
    hide FromSignText, AlignText, Scan, Follows;
    var rest := FromSignText(info, dash, spaces);
    NoAlignAfterwards(info, dash, spaces);
    SpecEnds(info, dash, spaces);
    FollowsSplit(fmt, i, AlignText(info), rest);
    FollowsFirst(fmt, i + |AlignText(info)|, rest);
    NoAlignText(info);
    if |rest| >= 2 {
      FollowsFirst(fmt, i + |AlignText(info)| + 1, rest[1..]);
    } else {
      assert info.align == DefaultAlign ==> SpecText(info, dash, spaces) == "}";
    }
    ReadAlign(fmt, i, info, START_PARSE, literal);
    SameWithoutFill(info, dash, spaces);
    ReadFromSign(fmt, i + |AlignText(info)|, Recovered(info), dash, spaces,
                 START_PARSE.(info := NO_INFO.(align := info.align, fill := Recovered(info).fill)), literal);
  }

  lemma NoAlignText(info: Info)
    ensures info.align == DefaultAlign ==> AlignText(info) == ""
  {
  }

  lemma SameWithoutFill(info: Info, dash: bool, spaces: nat)
    ensures FromSignText(Recovered(info), dash, spaces) == FromSignText(info, dash, spaces)
  {
    hide Numeral, Repeat;
  }

  function Descriptor(info: Info, name: string, dash: bool, spaces: nat): string {
    "{" + name + ":" + SpecText(info, dash, spaces)
  }

  /** get_next_fmt up to the colon. */
  lemma ReadToColon(literal: string, name: string, rest: string)
    requires '{' !in literal && ':' !in name
    ensures var fmt := literal + ("{" + name + ":" + rest);
            var j := |literal| + 1 + |name| + 1;
            Follows(fmt, j, rest) && At(fmt, j - 1) == ':' && j + |rest| == |fmt| &&
            NextFormat(fmt) == Scan(fmt, j, STAGE_ALIGN, START_PARSE, |literal|)
  {
    hide Scan;
    var fmt := literal + ("{" + name + ":" + rest);
    assert fmt == (literal + "{") + ((name + ":") + rest);
    var i := |literal| + 1;
    assert Follows(fmt, 0, literal + "{");
    assert Follows(fmt, i, name + ":");
    ReadLiteral(fmt, 0, literal, START_PARSE);
    ReadColon(fmt, i, name, START_PARSE, |literal|);
  }

  lemma ReadDescriptor(literal: string, info: Info, name: string, dash: bool, spaces: nat, rest: string)
    requires Spellable(info) && '{' !in literal && ':' !in name
    requires !(SpecText(info, dash, spaces) == "}" && IsAlign(At(rest, 0)))
    ensures Reads(NextFormat(literal + Descriptor(info, name, dash, spaces) + rest), info, Recovered(info),
                  |literal| + |Descriptor(info, name, dash, spaces)|, |literal|)
  {
    hide SpecText, Scan;
    var spec := SpecText(info, dash, spaces);
    var fmt := literal + Descriptor(info, name, dash, spaces) + rest;
    var j := |literal| + 1 + |name| + 1;
    assert fmt == literal + ("{" + name + ":" + (spec + rest));
    ReadToColon(literal, name, spec + rest);
    FollowsSplit(fmt, j, spec, rest);
    assert |spec| == 1 && rest != "" ==> fmt[j + 1] == rest[0];
    ReadSpec(fmt, j, info, dash, spaces, |literal|);
  }

  /**
   The round trip: whatever literal text precedes the descriptor, whatever stands before its
   colon and whatever follows it, get_next_fmt recovers the descriptor, the length of the
   literal text and the number of characters consumed.  Only a fill ':' is lost.
   */
  lemma DescriptorRoundTrip(literal: string, info: Info, name: string, dash: bool, spaces: nat, rest: string)
    requires Writable(info) && '{' !in literal && ':' !in name
    ensures NextFormat(literal + Descriptor(info, name, dash, spaces) + rest) ==
            Parsed(OK, Recovered(info), |literal| + |Descriptor(info, name, dash, spaces)|, |literal|, false)
    ensures Recovered(info) == info <==> info.fill != ':'
  {
    hide SpecText, NextFormat;
    TypedIsLonger(info, dash, spaces);
    ReadDescriptor(literal, info, name, dash, spaces, rest);
  }

  /** A colon between the first one and the alignment: the fill is lost. */
  lemma ColonFillExample()
    ensures NextFormat("{::<d}") == Parsed(OK, NO_INFO.(kind := Decimal, align := LeftAlign), 6, 0, false)
  {
    hide NextFormat;
    var info := NO_INFO.(kind := Decimal, align := LeftAlign, fill := ':');
    assert SpecText(info, false, 0) == ":<d}";
    assert Descriptor(info, "", false, 0) == "{::<d}";
    assert "" + "{::<d}" + "" == "{::<d}";
    DescriptorRoundTrip("", info, "", false, 0, "");
  }

  // ----- Descriptors without a closing brace -----

  /**
   Where the machine stops at a brace that ends the string, it would have ended there without that
   brace, with the same options.
   */
  lemma {:induction false} StopsWithoutBrace(fmt: string, i: nat, stage: nat, p: Parse, literal: nat)
    requires i <= |fmt| && stage <= STAGE_END && (stage == STAGE_ALIGN ==> 0 < i)
    requires var r := Scan(fmt + "}", i, stage, p, literal); r.status == OK && !r.end && r.consumed == |fmt| + 1
    ensures var r := Scan(fmt + "}", i, stage, p, literal);
            Scan(fmt, i, stage, p, literal) == Parsed(OK, r.info, 0, r.literal, true)
    decreases |fmt| - i, STAGE_END - stage
  {
    hide Token;
    var closed := fmt + "}";
    if i == |fmt| {
      AtBrace(closed, i, stage, p, literal);
    } else {
      SameToken(fmt, i, stage, p);
      var (verdict, p') := Token(stage, fmt, i, p);
      match verdict {
        case NextChar => StopsWithoutBrace(fmt, i + 1, stage, p', literal);
        case NextStage => StopsWithoutBrace(fmt, i, stage + 1, p', literal);
        case Found => StopsWithoutBrace(fmt, i + 1, stage + 1, p', if stage == STAGE_START then i else literal);
        case _ =>
      }
    }
  }

  /** A brace in front of the end of the string counts like the end itself. */
  lemma SameToken(fmt: string, i: nat, stage: nat, p: Parse)
    requires i < |fmt| && (stage == STAGE_ALIGN ==> 0 < i)
    ensures Token(stage, fmt + "}", i, p) == Token(stage, fmt, i, p)
  {
    hide DecValue, AlignOf, TypeOf;
    var closed := fmt + "}";
    assert closed[i] == fmt[i] && (0 < i ==> closed[i - 1] == fmt[i - 1]);
    assert IsAlign(At(closed, i + 1)) == IsAlign(At(fmt, i + 1));
    assert IsDigit(At(closed, i + 1)) == IsDigit(At(fmt, i + 1));
    forall start: Option<nat>
      ensures DigitsRead(closed, start, i) == DigitsRead(fmt, start, i)
    {
    }
  }

  /** At a brace that ends the string only the last stage stops. */
  lemma {:induction false} AtBrace(fmt: string, i: nat, stage: nat, p: Parse, literal: nat)
    requires i + 1 == |fmt| && fmt[i] == '}' && stage <= STAGE_END && (stage == STAGE_ALIGN ==> 0 < i)
    ensures var r := Scan(fmt, i, stage, p, literal);
            r.status == OK && !r.end ==> stage == STAGE_END && r == Parsed(OK, p.info, i + 1, literal, false)
    decreases STAGE_END - stage
  {
    if STAGE_ALIGN <= stage < STAGE_TYPE {
      AtBrace(fmt, i, stage + 1, p, literal);
    }
  }

  /** A descriptor that the end of the format cuts off before its brace is read like a whole one. */
  lemma UnterminatedIsRead(literal: string, info: Info, name: string, dash: bool, spaces: nat, open: string)
    requires Writable(info) && '{' !in literal && ':' !in name
    requires open + "}" == literal + Descriptor(info, name, dash, spaces)
    ensures NextFormat(open) == Parsed(OK, Recovered(info), 0, |literal|, true)
  {
    hide Scan, Descriptor;
    DescriptorRoundTrip(literal, info, name, dash, spaces, "");
    assert open + "}" + "" == open + "}" == literal + Descriptor(info, name, dash, spaces) + "";
    StopsWithoutBrace(open, 0, STAGE_START, START_PARSE, 0);
  }

  // ----- Descriptors without a type -----

  /**
   A descriptor without a type is an error, although the grammar shows the type as optional.
   The one exception is a descriptor that says nothing, with an alignment right behind its brace.
   */
  lemma TypelessIsInvalid(literal: string, info: Info, name: string, dash: bool, spaces: nat, rest: string)
    requires Spellable(info) && info.kind == NoType && '{' !in literal && ':' !in name
    requires !(SpecText(info, dash, spaces) == "}" && IsAlign(At(rest, 0)))
    ensures NextFormat(literal + Descriptor(info, name, dash, spaces) + rest).status == InvalidFormat
  {
    hide SpecText, NextFormat;
    ReadDescriptor(literal, info, name, dash, spaces, rest);
  }

  /**
   In the exceptional case the brace is passed over: it is the fill of the alignment behind it,
   unless a second one follows, for which the first one is the fill.
   */
  lemma BraceIsPassed(literal: string, name: string, rest: string)
    requires '{' !in literal && ':' !in name && rest != "" && IsAlign(At(rest, 0))
    ensures var fmt := literal + Descriptor(NO_INFO, name, false, 0) + rest;
            var j := |literal| + 1 + |name| + 1;
            NextFormat(fmt) ==
            if IsAlign(At(rest, 1)) then Scan(fmt, j + 2, STAGE_ALIGN, START_PARSE, |literal|)
            else Scan(fmt, j + 2, STAGE_SIGN,
                      START_PARSE.(info := NO_INFO.(align := AlignOf(rest[0]), fill := '}')), |literal|)
  {
    hide SpecText, NextFormat, Scan, Follows, AlignOf, IsAlign;
    var fmt := literal + Descriptor(NO_INFO, name, false, 0) + rest;
    var j := |literal| + 1 + |name| + 1;
    BareDescriptor(literal, name, rest);
    ReadToColon(literal, name, "}" + rest);
    FollowsBrace(fmt, j, rest);
    PassOrTake(fmt, j, START_PARSE, |literal|);
    PassOrTake(fmt, j + 1, START_PARSE, |literal|);
  }

  lemma BareDescriptor(literal: string, name: string, rest: string)
    ensures literal + Descriptor(NO_INFO, name, false, 0) + rest == literal + ("{" + name + ":" + ("}" + rest))
  {
    hide SpecText;
    NothingSaid();
  }

  lemma FollowsBrace(fmt: string, j: nat, rest: string)
    requires Follows(fmt, j, "}" + rest) && j + |"}" + rest| == |fmt| && IsAlign(At(rest, 0))
    ensures |fmt| > j + 1 && fmt[j] == '}' && fmt[j + 1] == rest[0]
    ensures At(fmt, j + 1) == At(rest, 0) && At(fmt, j + 2) == At(rest, 1)
  {
    assert fmt[j..] == "}" + rest;
    assert fmt[j] == fmt[j..][0] && fmt[j + 1] == fmt[j..][1];
    assert |rest| > 1 ==> fmt[j + 2] == fmt[j..][2];
  }

  /** So the descriptor may go on behind its brace: the parse is that of a descriptor with the fill '}'. */
  lemma BraceIsFill(literal: string, info: Info, name: string, dash: bool, spaces: nat, rest: string)
    requires Writable(info) && info.fill == '}' && '{' !in literal && ':' !in name
    ensures SpecText(NO_INFO, false, 0) == "}"
    ensures var follows := SpecText(info, dash, spaces)[1..] + rest;
            IsAlign(At(follows, 0)) &&
            NextFormat(literal + Descriptor(NO_INFO, name, false, 0) + follows) ==
            Parsed(OK, info, |literal| + |Descriptor(info, name, dash, spaces)|, |literal|, false)
  {
    hide FromSignText, NextFormat;
    NothingSaid();
    var spec := SpecText(info, dash, spaces);
    assert spec[0] == '}' && |spec| >= 2 && IsAlign(spec[1]);
    assert spec == "}" + spec[1..];
    assert literal + ("{" + name + ":" + "}") + (spec[1..] + rest) == literal + ("{" + name + ":" + spec) + rest;
    DescriptorRoundTrip(literal, info, name, dash, spaces, rest);
  }

  lemma NothingSaid()
    ensures FromSignText(NO_INFO, false, 0) == "}" && SpecText(NO_INFO, false, 0) == "}"
  {
  }

  /** So a descriptor without a type is rejected whatever follows it if and only if it says anything. */
  lemma TypelessIsAlwaysInvalidIff(literal: string, info: Info, name: string, dash: bool, spaces: nat)
    requires Spellable(info) && info.kind == NoType && '{' !in literal && ':' !in name
    ensures (forall rest :: NextFormat(literal + Descriptor(info, name, dash, spaces) + rest).status == InvalidFormat)
       <==> SpecText(info, dash, spaces) != "}"
  {
    hide SpecText, NextFormat;
    if SpecText(info, dash, spaces) == "}" {
      var filled := NO_INFO.(kind := Decimal, align := LeftAlign, fill := '}');
      BraceIsFill(literal, filled, name, false, 0, "");
      TypedIsLonger(filled, false, 0);
      assert Descriptor(info, name, dash, spaces) == Descriptor(NO_INFO, name, false, 0);
      var rest := SpecText(filled, false, 0)[1..] + "";
      assert NextFormat(literal + Descriptor(info, name, dash, spaces) + rest).status == OK;
    } else {
      forall rest
        ensures NextFormat(literal + Descriptor(info, name, dash, spaces) + rest).status == InvalidFormat
      {
        TypelessIsInvalid(literal, info, name, dash, spaces, rest);
      }
    }
  }

  /** An input for each case. */
  lemma TypelessExamples()
    ensures NextFormat("{:}").status == InvalidFormat
    ensures NextFormat("{:}<d}") == Parsed(OK, NO_INFO.(kind := Decimal, align := LeftAlign, fill := '}'), 6, 0, false)
  {
    hide NextFormat;
    NothingSaid();
    assert Descriptor(NO_INFO, "", false, 0) == "{:}";
    assert "" + "{:}" + "" == "{:}";
    TypelessIsInvalid("", NO_INFO, "", false, 0, "");
    var filled := NO_INFO.(kind := Decimal, align := LeftAlign, fill := '}');
    assert SpecText(filled, false, 0) == "}<d}";
    assert Descriptor(filled, "", false, 0) == "{:}<d}";
    assert "" + "{:}" + ("<d}" + "") == "{:}<d}";
    BraceIsFill("", filled, "", false, 0, "");
  }
}
