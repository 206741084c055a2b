/**
 What snprint of src/string_util.c prints, without a buffer: the rendering that a format asks for,
 and the run of the driver as a function of the room that is left.
 */
module Rendering {
  import opened Util
  import opened Buffers
  import opened Digits
  import opened Layout
  import opened NumberPrinter
  import opened StringArg
  import opened FormatSpec

  /** The NUL-terminated strings in memory, by address.  Address 0 is NULL. */
  type Memory = map<nat, string>

  // ----- One argument -----

  predicate IsNumber(kind: VarType) {
    kind == Binary || kind == Decimal || kind == Octal || kind == LowHex
  }

  function BaseOf(kind: VarType): (b: nat)
    requires IsNumber(kind)
    ensures IsBase(b)
  {
    match kind
    case Binary => 2
    case Decimal => 10
    case Octal => 8
    case LowHex => 16
  }

  /** The argument as the number that is printed: only type d is signed. */
  function SignedValue(kind: VarType, arg: nat): int {
    if kind == Decimal && arg >= 0x8000_0000_0000_0000 then arg - U64 else arg
  }

  function Magnitude(x: int): nat {
    if x < 0 then -x else x
  }

  function PartsOf(info: Info, arg: nat): Parts
    requires IsNumber(info.kind)
  {
    var x := SignedValue(info.kind, arg);
    ItoaParts(info, Magnitude(x), BaseOf(info.kind), x >= 0)
  }

  /** The text of an argument, if it has one. */
  function ArgText(info: Info, arg: nat, mem: Memory): Option<string> {
    if IsNumber(info.kind) then
      var x := SignedValue(info.kind, arg);
      Some(NumberText(info, Magnitude(x), BaseOf(info.kind), x >= 0))
    else if info.kind == Text && arg != 0 && arg in mem then Some(StringText(info, mem[arg]))
    else None
  }

  /** The one call of itoa whose padding count wraps around. */
  predicate Wraps(info: Info, arg: nat) {
    IsNumber(info.kind) &&
    PrefixWraps(info, |Numeral(Magnitude(SignedValue(info.kind, arg)), BaseOf(info.kind))|, BaseOf(info.kind))
  }

  /**
   What the formatter asks of an argument: a string is NULL or a string in memory, a signed number
   is not the one without a negation, and a right fill does not run out of room.
   */
  predicate ArgOk(info: Info, arg: nat, mem: Memory, size: nat) {
    (info.kind == Text ==> arg == 0 || arg in mem) &&
    (info.kind == Decimal ==> arg != 0x8000_0000_0000_0000) &&
    (IsNumber(info.kind) ==> !RightFillOverruns(PartsOf(info, arg), size))
  }

  function GenStatus(info: Info, arg: nat, mem: Memory, size: nat): Status {
    if IsNumber(info.kind) then ItoaStatus(PartsOf(info, arg), size)
    else if info.kind == NoType then InvalidFormat
    else if arg == 0 || arg !in mem then MissingArgument
    else StringStatus(info, mem[arg], size)
  }

  function GenWritten(info: Info, arg: nat, mem: Memory, size: nat): string {
    if IsNumber(info.kind) then ItoaWritten(PartsOf(info, arg), size)
    else if info.kind == NoType || arg == 0 || arg !in mem then ""
    else StringWritten(info, mem[arg], size)
  }

  lemma WrittenFits(info: Info, arg: nat, mem: Memory, size: nat)
    requires ArgOk(info, arg, mem, size)
    ensures |GenWritten(info, arg, mem, size)| <= size
  {
    hide ItoaWritten, RightFillOverruns, PartsOf, StringText;
    if IsNumber(info.kind) {
      StaysInsideIff(PartsOf(info, arg), size);
    } else if arg in mem {
      CutLength(StringText(info, mem[arg]), size);
    }
  }

  /** With room for one character more than its text an argument succeeds, and only then without filling the buffer. */
  lemma GenIsComplete(info: Info, arg: nat, mem: Memory, size: nat)
    requires ArgOk(info, arg, mem, size) && arg < U64 && info.minWidth < U64 && size < U64
    ensures GenStatus(info, arg, mem, size) == OK && |GenWritten(info, arg, mem, size)| < size ==>
              ArgText(info, arg, mem) == Some(GenWritten(info, arg, mem, size)) && !Wraps(info, arg)
    ensures ArgText(info, arg, mem).Some? && |ArgText(info, arg, mem).value| < size && !Wraps(info, arg) ==>
              GenStatus(info, arg, mem, size) == OK && GenWritten(info, arg, mem, size) == ArgText(info, arg, mem).value
  {
    hide ItoaParts, ItoaWritten, ItoaStatus, RightFillOverruns, NumberText, ItoaText, Numeral, PrefixWraps;
    if IsNumber(info.kind) {
      var x := SignedValue(info.kind, arg);
      ItoaIsComplete(info, Magnitude(x), BaseOf(info.kind), x >= 0, size);
      ItoaTextIsNumberText(info, Magnitude(x), BaseOf(info.kind), x >= 0);
    } else if arg in mem {
      CutLength(StringText(info, mem[arg]), size);
    }
  }

  // ----- Rendering without a buffer -----

  lemma NextFormatFacts(fmt: string)
    ensures var r := NextFormat(fmt);
            r.literal <= |fmt| && r.info.minWidth < U64 &&
            (r.status == OK && !r.end ==> 0 < r.consumed <= |fmt|)
  {
    ScanBounds(fmt, 0, STAGE_START, START_PARSE, 0);
    ScanNumbers(fmt, 0, STAGE_START, START_PARSE, 0);
  }

  /**
   What the format asks for: literal text and the texts of its arguments in order, the
   k-th argument being the next one.  None if the format or an argument is in error.
   */
  function Rendered(fmt: string, args: seq<nat>, k: nat, mem: Memory): Option<string>
    decreases |fmt|
  {
    NextFormatFacts(fmt);
    var r := NextFormat(fmt);
    if r.status != OK then None
    else
      var k' := if r.info.kind == NoType then k else k + 1;
      var own := if r.info.kind == NoType then Some("") else if k < |args| then ArgText(r.info, args[k], mem) else None;
      var rest := if r.end then Some("") else Rendered(fmt[r.consumed..], args, k', mem);
      if own == None || rest == None then None else Some(fmt[..r.literal] + own.value + rest.value)
  }

  /** Some argument on the way has a padding count that wraps around. */
  predicate WrapsSomewhere(fmt: string, args: seq<nat>, k: nat)
    decreases |fmt|
  {
    NextFormatFacts(fmt);
    var r := NextFormat(fmt);
    r.status == OK &&
    ((k < |args| && Wraps(r.info, args[k])) ||
     (!r.end && WrapsSomewhere(fmt[r.consumed..], args, if r.info.kind == NoType then k else k + 1)))
  }

  // ----- Printing into a bounded buffer -----

  /** How a run ends: the text that stands before the terminator, and the room left behind it. */
  datatype Outcome = Outcome(status: Status, output: string, room: nat)

  /** The loop of snprint with `room` characters left. */
  function Print(fmt: string, args: seq<nat>, k: nat, room: nat, mem: Memory): Outcome
    decreases |fmt|
  {
    NextFormatFacts(fmt);
    var r := NextFormat(fmt);
    if room == 0 then Outcome(OK, "", 0)
    else if r.status != OK then Outcome(r.status, "", room)
    else if r.literal > room then Outcome(Truncated, "", room)
    else
      var literal, room1 := fmt[..r.literal], room - r.literal;
      if r.info.kind == NoType then
        if r.end then Outcome(OK, literal, room1)
        else After(literal, Print(fmt[r.consumed..], args, k, room1, mem))
      else if k >= |args| then Outcome(MissingPlaceholder, literal, room1)
      else
        var status, text := GenStatus(r.info, args[k], mem, room1), GenWritten(r.info, args[k], mem, room1);
        if status != OK then Outcome(status, literal, room1)
        else
          var room2 := if |text| <= room1 then room1 - |text| else 0;
          if r.end then Outcome(OK, literal + text, room2)
          else After(literal + text, Print(fmt[r.consumed..], args, k + 1, room2, mem))
  }

  function After(text: string, o: Outcome): Outcome {
    o.(output := text + o.output)
  }

  /** Every argument that the run reaches is one that the formatter can take. */
  predicate ArgsOk(fmt: string, args: seq<nat>, k: nat, room: nat, mem: Memory)
    decreases |fmt|
  {
    NextFormatFacts(fmt);
    var r := NextFormat(fmt);
    room > 0 && r.status == OK && r.literal <= room ==>
      var room1 := room - r.literal;
      if r.info.kind == NoType then !r.end ==> ArgsOk(fmt[r.consumed..], args, k, room1, mem)
      else k < |args| ==>
        ArgOk(r.info, args[k], mem, room1) &&
        (GenStatus(r.info, args[k], mem, room1) == OK && !r.end ==>
           var n := |GenWritten(r.info, args[k], mem, room1)|;
           ArgsOk(fmt[r.consumed..], args, k + 1, if n <= room1 then room1 - n else 0, mem))
  }

  lemma {:induction false} OutputLength(fmt: string, args: seq<nat>, k: nat, room: nat, mem: Memory)
    requires ArgsOk(fmt, args, k, room, mem)
    ensures var o := Print(fmt, args, k, room, mem); |o.output| + o.room == room
    decreases |fmt|
  {
    hide NextFormat, GenStatus, GenWritten, ArgOk;
    NextFormatFacts(fmt);
    var r := NextFormat(fmt);
    if room > 0 && r.status == OK && r.literal <= room {
      var room1 := room - r.literal;
      if r.info.kind == NoType {
        if !r.end {
          OutputLength(fmt[r.consumed..], args, k, room1, mem);
        }
      } else if k < |args| {
        WrittenFits(r.info, args[k], mem, room1);
        if GenStatus(r.info, args[k], mem, room1) == OK && !r.end {
          OutputLength(fmt[r.consumed..], args, k + 1, room1 - |GenWritten(r.info, args[k], mem, room1)|, mem);
        }
      }
    }
  }

  /** Success with room to spare means that the output is the rendering, complete and unchanged. */
  lemma {:induction false} RoomLeftMeansComplete(fmt: string, args: seq<nat>, k: nat, room: nat, mem: Memory)
    requires ArgsOk(fmt, args, k, room, mem) && room < U64 && forall j :: 0 <= j < |args| ==> args[j] < U64
    ensures var o := Print(fmt, args, k, room, mem);
            o.status == OK && o.room > 0 ==>
              Rendered(fmt, args, k, mem) == Some(o.output) && !WrapsSomewhere(fmt, args, k)
    decreases |fmt|
  {
    hide NextFormat, GenStatus, GenWritten, ArgOk, ArgText, Wraps;
    NextFormatFacts(fmt);
    var r := NextFormat(fmt);
    if room > 0 && r.status == OK && r.literal <= room {
      var literal, room1 := fmt[..r.literal], room - r.literal;
      if r.info.kind == NoType {
        NoTypeNeverWraps(r.info, args, k);
        Pieces(literal, "");
        if !r.end {
          RoomLeftMeansComplete(fmt[r.consumed..], args, k, room1, mem);
        }
      } else if k < |args| {
        GenIsComplete(r.info, args[k], mem, room1);
        WrittenFits(r.info, args[k], mem, room1);
        var written := GenWritten(r.info, args[k], mem, room1);
        Pieces(literal, written);
        if !r.end && GenStatus(r.info, args[k], mem, room1) == OK {
          RoomLeftMeansComplete(fmt[r.consumed..], args, k + 1, room1 - |written|, mem);
        }
      }
    }
  }

  /** Whenever the rendering fits with room to spare, and no padding count wraps, it is printed. */
  lemma {:induction false} FitsMeansPrinted(fmt: string, args: seq<nat>, k: nat, room: nat, mem: Memory)
    requires ArgsOk(fmt, args, k, room, mem) && room < U64 && forall j :: 0 <= j < |args| ==> args[j] < U64
    ensures var t := Rendered(fmt, args, k, mem);
            t.Some? && |t.value| < room && !WrapsSomewhere(fmt, args, k) ==>
              Print(fmt, args, k, room, mem) == Outcome(OK, t.value, room - |t.value|)
    decreases |fmt|
  {
    hide NextFormat, GenStatus, GenWritten, ArgOk, ArgText, Wraps, IsNumber;
    NextFormatFacts(fmt);
    var r := NextFormat(fmt);
    if room > 0 && r.status == OK && r.literal <= room {
      var literal, room1 := fmt[..r.literal], room - r.literal;
      if r.info.kind == NoType {
        NoTypeNeverWraps(r.info, args, k);
        Pieces(literal, "");
        if !r.end {
          FitsMeansPrinted(fmt[r.consumed..], args, k, room1, mem);
        }
      } else if k < |args| {
        GenIsComplete(r.info, args[k], mem, room1);
        WrittenFits(r.info, args[k], mem, room1);
        var written := GenWritten(r.info, args[k], mem, room1);
        Pieces(literal, written);
        if !r.end && GenStatus(r.info, args[k], mem, room1) == OK {
          FitsMeansPrinted(fmt[r.consumed..], args, k + 1, room1 - |written|, mem);
        }
      }
    }
  }

  /** Both directions: with room to spare, a successful run and a fitting rendering are the same. */
  lemma PrintRefinesRendering(fmt: string, args: seq<nat>, k: nat, room: nat, mem: Memory)
    requires ArgsOk(fmt, args, k, room, mem) && room < U64 && forall j :: 0 <= j < |args| ==> args[j] < U64
    ensures var o, t := Print(fmt, args, k, room, mem), Rendered(fmt, args, k, mem);
            (o.status == OK && o.room > 0 ==> t == Some(o.output) && !WrapsSomewhere(fmt, args, k)) &&
            (t.Some? && |t.value| < room && !WrapsSomewhere(fmt, args, k) ==>
               o == Outcome(OK, t.value, room - |t.value|))
  {
    hide Print, Rendered, ArgsOk, WrapsSomewhere;
    RoomLeftMeansComplete(fmt, args, k, room, mem);
    FitsMeansPrinted(fmt, args, k, room, mem);
  }

  // ----- Where the rendering fits, no right fill runs out of room -----

  /** A string is NULL or in memory, and a signed number has a negation. */
  predicate Printable(info: Info, arg: nat, mem: Memory) {
    (info.kind == Text ==> arg == 0 || arg in mem) && (info.kind == Decimal ==> arg != 0x8000_0000_0000_0000)
  }

  predicate AllPrintable(fmt: string, args: seq<nat>, k: nat, mem: Memory)
    decreases |fmt|
  {
    NextFormatFacts(fmt);
    var r := NextFormat(fmt);
    r.status == OK ==>
      (k < |args| ==> Printable(r.info, args[k], mem)) &&
      (!r.end ==> AllPrintable(fmt[r.consumed..], args, if r.info.kind == NoType then k else k + 1, mem))
  }

  lemma FittingIsOk(info: Info, arg: nat, mem: Memory, size: nat)
    requires Printable(info, arg, mem) && arg < U64 && info.minWidth < U64 && !Wraps(info, arg)
    requires ArgText(info, arg, mem).Some? && |ArgText(info, arg, mem).value| < size
    ensures ArgOk(info, arg, mem, size)
  {
    hide ItoaParts, ItoaWritten, ItoaStatus, RightFillOverruns, NumberText, ItoaText, Numeral, PrefixWraps;
    if IsNumber(info.kind) {
      var x := SignedValue(info.kind, arg);
      ItoaIsComplete(info, Magnitude(x), BaseOf(info.kind), x >= 0, size);
      ItoaTextIsNumberText(info, Magnitude(x), BaseOf(info.kind), x >= 0);
      StaysInsideIff(PartsOf(info, arg), size);
    }
  }

  /** Whatever the alignments, the formatter can take the arguments of a rendering that fits. */
  lemma {:induction false} FittingArgsOk(fmt: string, args: seq<nat>, k: nat, room: nat, mem: Memory)
    requires room < U64 && forall j :: 0 <= j < |args| ==> args[j] < U64
    ensures var t := Rendered(fmt, args, k, mem);
            AllPrintable(fmt, args, k, mem) && !WrapsSomewhere(fmt, args, k) && t.Some? && |t.value| < room ==>
              ArgsOk(fmt, args, k, room, mem)
    decreases |fmt|
  {
    hide NextFormat, GenStatus, GenWritten, ArgOk, ArgText, Wraps, Printable;
    NextFormatFacts(fmt);
    var r, t := NextFormat(fmt), Rendered(fmt, args, k, mem);
    if AllPrintable(fmt, args, k, mem) && !WrapsSomewhere(fmt, args, k) && t.Some? && |t.value| < room {
      var room1 := room - r.literal;
      if r.info.kind == NoType {
        if !r.end {
          FittingArgsOk(fmt[r.consumed..], args, k, room1, mem);
        }
      } else {
        FittingIsOk(r.info, args[k], mem, room1);
        GenIsComplete(r.info, args[k], mem, room1);
        if !r.end {
          FittingArgsOk(fmt[r.consumed..], args, k + 1, room1 - |GenWritten(r.info, args[k], mem, room1)|, mem);
        }
      }
    }
  }

  lemma Pieces(s: string, t: string)
    ensures s + "" == s && s + t + "" == s + t && |s + t| == |s| + |t|
  {
  }

  lemma NoTypeNeverWraps(info: Info, args: seq<nat>, k: nat)
    requires info.kind == NoType
    ensures k < |args| ==> !Wraps(info, args[k])
  {
  }

  lemma NoRoomLeft(fmt: string, args: seq<nat>, k: nat, mem: Memory)
    ensures Print(fmt, args, k, 0, mem) == Outcome(OK, "", 0)
  {
  }
}
