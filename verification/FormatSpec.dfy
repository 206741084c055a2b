/**
 The parser of format descriptors (src/string_util.c): a stage machine that looks at one
 character, its predecessor and its successor at a time.
 */
module FormatSpec {
  import opened Util
  import opened Digits
  import opened Layout

  /** What the machine has learnt so far: the descriptor, and where a number being read began. */
  datatype Parse = Parse(info: Info, widthStart: Option<nat>, preciseStart: Option<nat>)

  const START_PARSE := Parse(NO_INFO, None, None)

  datatype Verdict = NextChar | NextStage | Stop | Found | Error

  const STAGE_START: nat := 0
  const STAGE_SPECIFIER_START: nat := 1
  const STAGE_ALIGN: nat := 2
  const STAGE_SIGN: nat := 3
  const STAGE_ALTERNATIVE: nat := 4
  const STAGE_ZERO_PADDING: nat := 5
  const STAGE_MINWIDTH: nat := 6
  const STAGE_PRECISE: nat := 7
  const STAGE_TYPE: nat := 8
  const STAGE_END: nat := 9

  /** The character at a position of a C string: the terminator follows the last one. */
  function At(fmt: string, i: nat): char {
    if i < |fmt| then fmt[i] else '\0'
  }

  predicate IsDigit(c: char) {
    '0' <= c <= '9'
  }

  predicate IsAlign(c: char) {
    c == '<' || c == '>' || c == '=' || c == '^'
  }

  // ----- The checks, one per stage -----

  function AlignOf(c: char): Align {
    match c
    case '<' => LeftAlign
    case '>' => RightAlign
    case '=' => AfterSignAlign
    case '^' => CenterAlign
    case _ => DefaultAlign
  }

  function TypeOf(c: char): VarType {
    match c
    case 'b' => Binary
    case 'd' => Decimal
    case 'o' => Octal
    case 'x' => LowHex
    case 's' => Text
    case _ => NoType
  }

  function AlignStep(fmt: string, i: nat, p: Parse): (Verdict, Parse)
    requires 0 < i < |fmt|
  {
    if IsAlign(At(fmt, i + 1)) then (NextChar, p)
    else if IsAlign(fmt[i]) then
      var aligned := p.info.(align := AlignOf(fmt[i]));
      (Found, p.(info := if fmt[i - 1] != ':' then aligned.(fill := fmt[i - 1]) else aligned))
    else (NextStage, p)
  }

  function SignStep(fmt: string, i: nat, p: Parse): (Verdict, Parse)
    requires i < |fmt|
  {
    match fmt[i]
    case '+' => (Found, p.(info := p.info.(sign := BothSigns)))
    case '-' => (Found, p.(info := p.info.(sign := NegativeOnly)))
    case ' ' => (Found, p.(info := p.info.(sign := LeadingSpace)))
    case _ => (NextStage, p)
  }

  /** The digits from the recorded start, or from here, up to and including this position. */
  function DigitsRead(fmt: string, start: Option<nat>, i: nat): string
    requires i < |fmt|
  {
    match start
    case Some(k) => if k <= i then fmt[k..i + 1] else []
    case None => fmt[i..i + 1]
  }

  function WidthStep(fmt: string, i: nat, p: Parse): (Verdict, Parse)
    requires i < |fmt|
  {
    if !IsDigit(fmt[i]) then (NextStage, p)
    else
      var start := if p.widthStart == None then Some(i) else p.widthStart;
      if IsDigit(At(fmt, i + 1)) then (NextChar, p.(widthStart := start))
      else (Found, p.(widthStart := None, info := p.info.(minWidth := DecValue(DigitsRead(fmt, start, i)))))
  }

  function PreciseStep(fmt: string, i: nat, p: Parse): (Verdict, Parse)
    requires i < |fmt|
  {
    if fmt[i] == '.' && IsDigit(At(fmt, i + 1)) then (NextChar, p.(preciseStart := None))
    else if !IsDigit(fmt[i]) then (NextStage, p)
    else
      var start := if p.preciseStart == None then Some(i) else p.preciseStart;
      if IsDigit(At(fmt, i + 1)) then (NextChar, p.(preciseStart := start))
      else (Found, p.(preciseStart := None, info := p.info.(precise := DecValue(DigitsRead(fmt, start, i)))))
  }

  /** check_token */
  function Token(stage: nat, fmt: string, i: nat, p: Parse): (r: (Verdict, Parse))
    requires i < |fmt| && (stage == STAGE_ALIGN ==> 0 < i)
    ensures r.0 == NextStage ==> STAGE_ALIGN <= stage < STAGE_TYPE
    ensures r.0 == Found ==> stage < STAGE_END
  {
    var c := fmt[i];
    if stage == STAGE_START then (if c == '{' then Found else NextChar, p)
    else if stage == STAGE_SPECIFIER_START then (if c == ':' then Found else NextChar, p)
    else if stage == STAGE_ALIGN then AlignStep(fmt, i, p)
    else if stage == STAGE_SIGN then SignStep(fmt, i, p)
    else if stage == STAGE_ALTERNATIVE then
      if c == '#' then (Found, p.(info := p.info.(alternate := true))) else (NextStage, p)
    else if stage == STAGE_ZERO_PADDING then
      if c == '0' then (Found, p.(info := p.info.(zeroPadding := true))) else (NextStage, p)
    else if stage == STAGE_MINWIDTH then WidthStep(fmt, i, p)
    else if stage == STAGE_PRECISE then PreciseStep(fmt, i, p)
    else if stage == STAGE_TYPE then
      if TypeOf(c) == NoType then (Error, p) else (Found, p.(info := p.info.(kind := TypeOf(c))))
    else if stage == STAGE_END then (if c == ' ' then NextChar else if c == '}' then Stop else Error, p)
    else (Error, p)
  }

  // ----- get_next_fmt -----

  /** What get_next_fmt reports: on an error the lengths mean nothing. */
  datatype Parsed = Parsed(status: Status, info: Info, consumed: nat, literal: nat, end: bool)

  /** The run of the machine from position i, stage and knowledge p on. */
  function Scan(fmt: string, i: nat, stage: nat, p: Parse, literal: nat): Parsed
    requires i <= |fmt| && stage <= STAGE_END && (stage == STAGE_ALIGN ==> 0 < i)
    decreases |fmt| - i, STAGE_END - stage
  {
    if i == |fmt| then
      Parsed(OK, p.info, if stage == STAGE_START then i + 1 else 0, if stage == STAGE_START then i else literal, true)
    else
      var (verdict, p') := Token(stage, fmt, i, p);
      match verdict
      case NextChar => Scan(fmt, i + 1, stage, p', literal)
      case NextStage => Scan(fmt, i, stage + 1, p', literal)
      case Stop => Parsed(OK, p'.info, i + 1, literal, false)
      case Found => Scan(fmt, i + 1, stage + 1, p', if stage == STAGE_START then i else literal)
      case Error => Parsed(InvalidFormat, p'.info, 0, literal, false)
  }

  function NextFormat(fmt: string): Parsed {
    Scan(fmt, 0, STAGE_START, START_PARSE, 0)
  }

  /** A descriptor that does not end the string consumes at least its own characters, inside the string. */
  lemma {:induction false} ScanBounds(fmt: string, i: nat, stage: nat, p: Parse, literal: nat)
    requires i <= |fmt| && stage <= STAGE_END && (stage == STAGE_ALIGN ==> 0 < i) && literal <= i
    ensures var r := Scan(fmt, i, stage, p, literal);
            r.literal <= |fmt| && (r.status == OK && !r.end ==> i < r.consumed <= |fmt| && r.literal <= r.consumed)
    decreases |fmt| - i, STAGE_END - stage
  {
    hide Token;
    if i < |fmt| {
      var (verdict, p') := Token(stage, fmt, i, p);
      match verdict {
        case NextChar => ScanBounds(fmt, i + 1, stage, p', literal);
        case NextStage => ScanBounds(fmt, i, stage + 1, p', literal);
        case Found => ScanBounds(fmt, i + 1, stage + 1, p', if stage == STAGE_START then i else literal);
        case _ =>
      }
    }
  }

  /** The numbers that the parser stores are 64 bits wide. */
  lemma {:induction false} ScanNumbers(fmt: string, i: nat, stage: nat, p: Parse, literal: nat)
    requires i <= |fmt| && stage <= STAGE_END && (stage == STAGE_ALIGN ==> 0 < i)
    requires p.info.minWidth < U64 && p.info.precise < U64
    ensures var info := Scan(fmt, i, stage, p, literal).info; info.minWidth < U64 && info.precise < U64
    decreases |fmt| - i, STAGE_END - stage
  {
    hide Token;
    if i < |fmt| {
      var (verdict, p') := Token(stage, fmt, i, p);
      TokenNumbers(stage, fmt, i, p);
      match verdict {
        case NextChar => ScanNumbers(fmt, i + 1, stage, p', literal);
        case NextStage => ScanNumbers(fmt, i, stage + 1, p', literal);
        case Found => ScanNumbers(fmt, i + 1, stage + 1, p', if stage == STAGE_START then i else literal);
        case _ =>
      }
    }
  }

  /** A descriptor that is finished has a type. */
  lemma {:induction false} TypedUnlessEnd(fmt: string, i: nat, stage: nat, p: Parse, literal: nat)
    requires i <= |fmt| && stage <= STAGE_END && (stage == STAGE_ALIGN ==> 0 < i)
    requires stage == STAGE_END ==> p.info.kind != NoType
    ensures var r := Scan(fmt, i, stage, p, literal); r.status == OK && !r.end ==> r.info.kind != NoType
    decreases |fmt| - i, STAGE_END - stage
  {
    hide Token;
    if i < |fmt| {
      var (verdict, p') := Token(stage, fmt, i, p);
      TokenTypes(stage, fmt, i, p);
      match verdict {
        case NextChar => TypedUnlessEnd(fmt, i + 1, stage, p', literal);
        case NextStage => TypedUnlessEnd(fmt, i, stage + 1, p', literal);
        case Found => TypedUnlessEnd(fmt, i + 1, stage + 1, p', if stage == STAGE_START then i else literal);
        case _ =>
      }
    }
  }

  lemma TokenTypes(stage: nat, fmt: string, i: nat, p: Parse)
    requires i < |fmt| && (stage == STAGE_ALIGN ==> 0 < i)
    ensures var (verdict, p') := Token(stage, fmt, i, p);
            (verdict == Found && stage == STAGE_TYPE ==> p'.info.kind != NoType) &&
            (verdict == NextStage ==> stage != STAGE_TYPE) && (verdict == Stop ==> stage == STAGE_END) &&
            (stage == STAGE_END ==> p' == p)
  {
    hide DecValue;
  }

  lemma DecValueFits(s: string)
    ensures DecValue(s) < U64
  {
  }

  lemma TokenNumbers(stage: nat, fmt: string, i: nat, p: Parse)
    requires i < |fmt| && (stage == STAGE_ALIGN ==> 0 < i) && p.info.minWidth < U64 && p.info.precise < U64
    ensures var info := Token(stage, fmt, i, p).1.info; info.minWidth < U64 && info.precise < U64
  {
    hide DecValue;
    DecValueFits(DigitsRead(fmt, if p.widthStart == None then Some(i) else p.widthStart, i));
    DecValueFits(DigitsRead(fmt, if p.preciseStart == None then Some(i) else p.preciseStart, i));
  }

  // ----- The parser on a mutable fmt_info_t -----

  class FmtInfo {
    var kind: VarType
    var fill: char
    var alternate: bool
    var zeroPadding: bool
    var align: Align
    var sign: Sign
    var minWidth: nat
    var precise: nat
    var minwidthStart: Option<nat>
    var preciseStart: Option<nat>

    ghost function State(): Parse
      reads this
    {
      Parse(Value(), minwidthStart, preciseStart)
    }

    function Value(): Info
      reads this
    {
      Info(kind, fill, alternate, zeroPadding, align, sign, minWidth, precise)
    }

    constructor ()
      ensures State() == START_PARSE
    {
      kind, fill, alternate, zeroPadding := NoType, '\0', false, false;
      align, sign, minWidth, precise := DefaultAlign, NegativeOnly, 0, 0;
      minwidthStart, preciseStart := None, None;
    }

    method CheckAlign(fmt: string, i: nat) returns (v: Verdict)
      requires 0 < i < |fmt|
      modifies this
      ensures (v, State()) == AlignStep(fmt, i, old(State()))
    {
      var stopper, output := ['<', '>', '=', '^'], [LeftAlign, RightAlign, AfterSignAlign, CenterAlign];
      if At(fmt, i + 1) in stopper {
        return NextChar;
      }
      for k := 0 to |stopper|
        invariant State() == old(State()) && forall j :: 0 <= j < k ==> stopper[j] != fmt[i]
      {
        if stopper[k] == fmt[i] {
          align := output[k];
          if fmt[i - 1] != ':' {
            fill := fmt[i - 1];
          }
          return Found;
        }
      }
      assert stopper[0] != fmt[i] && stopper[1] != fmt[i] && stopper[2] != fmt[i] && stopper[3] != fmt[i];
      v := NextStage;
    }

    method CheckSign(fmt: string, i: nat) returns (v: Verdict)
      requires i < |fmt|
      modifies this
      ensures (v, State()) == SignStep(fmt, i, old(State()))
    {
      var stopper, output := ['+', '-', ' '], [BothSigns, NegativeOnly, LeadingSpace];
      for k := 0 to |stopper|
        invariant State() == old(State()) && forall j :: 0 <= j < k ==> stopper[j] != fmt[i]
      {
        if stopper[k] == fmt[i] {
          sign := output[k];
          return Found;
        }
      }
      assert stopper[0] != fmt[i] && stopper[1] != fmt[i] && stopper[2] != fmt[i];
      v := NextStage;
    }

    method CheckMinwidth(fmt: string, i: nat) returns (v: Verdict)
      requires i < |fmt|
      modifies this
      ensures (v, State()) == WidthStep(fmt, i, old(State()))
    {
      v := NextStage;
      if IsDigit(fmt[i]) {
        if minwidthStart == None {
          minwidthStart := Some(i);
        }
        if IsDigit(At(fmt, i + 1)) {
          v := NextChar;
        } else {
          minWidth := AtoDec(DigitsRead(fmt, minwidthStart, i));
          minwidthStart := None;
          v := Found;
        }
      }
    }

    method CheckPrecise(fmt: string, i: nat) returns (v: Verdict)
      requires i < |fmt|
      modifies this
      ensures (v, State()) == PreciseStep(fmt, i, old(State()))
    {
      if fmt[i] == '.' && IsDigit(At(fmt, i + 1)) {
        preciseStart := None;
        return NextChar;
      }
      v := NextStage;
      if IsDigit(fmt[i]) {
        if preciseStart == None {
          preciseStart := Some(i);
        }
        if IsDigit(At(fmt, i + 1)) {
          v := NextChar;
        } else {
          precise := AtoDec(DigitsRead(fmt, preciseStart, i));
          preciseStart := None;
          v := Found;
        }
      }
    }

    method CheckType(c: char) returns (v: Verdict)
      modifies this
      ensures if TypeOf(c) == NoType then v == Error && State() == old(State())
              else v == Found && State() == old(State()).(info := old(Value()).(kind := TypeOf(c)))
    {
      var stopper, output := ['b', 'd', 'o', 'x', 's'], [Binary, Decimal, Octal, LowHex, Text];
      for k := 0 to |stopper|
        invariant State() == old(State()) && forall j :: 0 <= j < k ==> stopper[j] != c
      {
        if stopper[k] == c {
          kind := output[k];
          return Found;
        }
      }
      assert stopper[0] != c && stopper[1] != c && stopper[2] != c && stopper[3] != c && stopper[4] != c;
      v := Error;
    }

    /** check_token */
    method CheckToken(stage: nat, fmt: string, i: nat) returns (v: Verdict)
      requires i < |fmt| && (stage == STAGE_ALIGN ==> 0 < i)
      modifies this
      ensures (v, State()) == Token(stage, fmt, i, old(State()))
    {
      hide AlignStep, SignStep, WidthStep, PreciseStep, TypeOf;
      if stage == STAGE_START {
        v := if fmt[i] == '{' then Found else NextChar;
      } else if stage == STAGE_SPECIFIER_START {
        v := if fmt[i] == ':' then Found else NextChar;
      } else if stage == STAGE_ALIGN {
        v := CheckAlign(fmt, i);
      } else if stage == STAGE_SIGN {
        v := CheckSign(fmt, i);
      } else if stage == STAGE_ALTERNATIVE {
        v := NextStage;
        if fmt[i] == '#' {
          alternate := true;
          v := Found;
        }
      } else if stage == STAGE_ZERO_PADDING {
        v := NextStage;
        if fmt[i] == '0' {
          zeroPadding := true;
          v := Found;
        }
      } else if stage == STAGE_MINWIDTH {
        v := CheckMinwidth(fmt, i);
      } else if stage == STAGE_PRECISE {
        v := CheckPrecise(fmt, i);
      } else if stage == STAGE_TYPE {
        v := CheckType(fmt[i]);
      } else if stage == STAGE_END {
        v := if fmt[i] == ' ' then NextChar else if fmt[i] == '}' then Stop else Error;
      } else {
        v := Error;
      }
    }
  }

  /** get_next_fmt; the index is 32 bits wide. */
  method GetNextFmt(fmt: string, info: FmtInfo) returns (status: Status, consumed: nat, literal: nat, end: bool)
    requires info.State() == START_PARSE && |fmt| < 0x1_0000_0000
    modifies info
    ensures Parsed(status, info.Value(), consumed, literal, end) == NextFormat(fmt)
  {
    hide Token;
    var i: nat, stage: nat := 0, STAGE_START;
    consumed, literal, end := 0, 0, false;
    while i < |fmt|
      invariant i <= |fmt| && stage <= STAGE_END && (stage == STAGE_ALIGN ==> 0 < i)
      invariant NextFormat(fmt) == Scan(fmt, i, stage, info.State(), literal)
      invariant consumed == 0 && !end
      decreases |fmt| - i, STAGE_END - stage
    {
      ghost var p := info.State();
      var v := info.CheckToken(stage, fmt, i);
      match v {
        case NextChar =>
          i := i + 1;
        case NextStage =>
          stage := stage + 1;
        case Stop =>
          return OK, i + 1, literal, end;
        case Found =>
          if stage == STAGE_START {
            literal := i;
          }
          i := i + 1;
          stage := stage + 1;
        case Error =>
          return InvalidFormat, consumed, literal, end;
      }
    }
    if stage == STAGE_START {
      literal := i;
      consumed := i + 1;
    }
    end := true;
    status := OK;
  }
}
