/**
 When snprint reports a truncation.  The last padding of a number is not checked against the room,
 so that some outputs are cut and yet reported as a success with a length below the buffer size.
 */
module Truncation {
  import opened Util
  import opened Buffers
  import opened Digits
  import opened Layout
  import opened NumberPrinter
  import opened StringArg
  import opened FormatSpec
  import opened FormatRoundTrip
  import opened Rendering
  import opened Template

  // ----- Lengths of an argument -----

  function NumberFill(info: Info, arg: nat): Fill
    requires IsNumber(info.kind)
  {
    var x := SignedValue(info.kind, arg);
    Place(info, PaddingCount(info, |Numeral(Magnitude(x), BaseOf(info.kind))|, BaseOf(info.kind), x >= 0))
  }

  /** The length of a number without its outer fill: what itoa checks against the room. */
  function InnerLength(info: Info, arg: nat): nat
    requires IsNumber(info.kind)
  {
    var x, f := SignedValue(info.kind, arg), NumberFill(info, arg);
    |SignText(info, x >= 0)| + |PrefixText(info, BaseOf(info.kind))| + |Numeral(Magnitude(x), BaseOf(info.kind))| +
    f.afterSign + f.afterPrefix
  }

  /** The length of an argument as it is laid out when there is room. */
  function LaidOutLength(info: Info, arg: nat, mem: Memory): nat {
    if IsNumber(info.kind) then InnerLength(info, arg) + NumberFill(info, arg).left + NumberFill(info, arg).right
    else if arg in mem then |StringText(info, mem[arg])|
    else 0
  }

  /** The argument is accepted: a number by its inner length, a string by its whole length. */
  predicate Accepted(info: Info, arg: nat, mem: Memory, room: nat) {
    if IsNumber(info.kind) then InnerLength(info, arg) < room
    else info.kind == Text && arg != 0 && arg in mem && LaidOutLength(info, arg, mem) < room
  }

  function Less(room: nat, n: nat): nat {
    if n <= room then room - n else 0
  }

  /**
   The run ends with success: every item that begins before the end of the room is literal text that
   fits or an argument that is accepted.  Only a number can be accepted and still reach the end.
   */
  predicate EndsInOk(fmt: string, args: seq<nat>, k: nat, room: nat, mem: Memory)
    decreases |fmt|
  {
    NextFormatFacts(fmt);
    var r := NextFormat(fmt);
    room == 0 ||
    (r.status == OK && r.literal <= room &&
     var room1 := room - r.literal;
     if r.info.kind == NoType then r.end || EndsInOk(fmt[r.consumed..], args, k, room1, mem)
     else
       k < |args| && Accepted(r.info, args[k], mem, room1) &&
       (r.end || EndsInOk(fmt[r.consumed..], args, k + 1, Less(room1, LaidOutLength(r.info, args[k], mem)), mem)))
  }

  lemma PartsLengths(info: Info, arg: nat)
    requires IsNumber(info.kind)
    ensures var p := PartsOf(info, arg);
            |p.Before(5)| == InnerLength(info, arg) && p.fill == NumberFill(info, arg) &&
            |p.Emission()| == |p.Before(5)| + p.fill.left
  {
    hide Emitted, Place, PaddingCount, PrefixText;
    var p := PartsOf(info, arg);
    var f := p.fill;
    var x := SignedValue(info.kind, arg);
    RepeatLength(f.c, f.afterPrefix);
    RepeatLength(f.c, f.afterSign);
    RepeatLength(f.c, f.left);
    assert |Numeral(Magnitude(x), BaseOf(info.kind))| == |p.emitted|;
    assert |p.Before(1)| == |p.emitted|;
    assert |p.Before(2)| == |p.Before(1)| + f.afterPrefix;
    assert |p.Before(3)| == |p.Before(2)| + |p.prefix|;
    assert |p.Before(4)| == |p.Before(3)| + f.afterSign;
    assert |p.Before(5)| == |p.Before(4)| + |p.sign|;
    assert |p.Before(6)| == |p.Before(5)| + f.left;
  }

  /** An argument is accepted as GenStatus says, and takes its whole length as far as there is room. */
  lemma AcceptedIff(info: Info, arg: nat, mem: Memory, size: nat)
    requires ArgOk(info, arg, mem, size) && info.kind != NoType
    ensures GenStatus(info, arg, mem, size) == OK <==> Accepted(info, arg, mem, size)
    ensures Accepted(info, arg, mem, size) ==>
              |GenWritten(info, arg, mem, size)| == Min(LaidOutLength(info, arg, mem), size)
  {
    hide PartsOf, ItoaWritten, InnerLength, NumberFill, StringText, Parts.Before, Parts.Emission;
    if IsNumber(info.kind) {
      var p := PartsOf(info, arg);
      PartsLengths(info, arg);
      p.BeforeIsPrefix(1, 5);
      FirstPiece(p);
      if |p.Before(5)| < size {
        WrittenLength(p, size);
        CutLength(p.Emission(), size);
      }
    } else if arg in mem {
      CutLength(StringText(info, mem[arg]), size);
    }
  }

  /** The status of a run is a success exactly if the lengths say so. */
  lemma {:induction false} OkIff(fmt: string, args: seq<nat>, k: nat, room: nat, mem: Memory)
    requires ArgsOk(fmt, args, k, room, mem)
    ensures Print(fmt, args, k, room, mem).status == OK <==> EndsInOk(fmt, args, k, room, mem)
    decreases |fmt|
  {
    hide NextFormat, GenStatus, GenWritten, ArgOk, Accepted, LaidOutLength;
    NextFormatFacts(fmt);
    var r := NextFormat(fmt);
    if room > 0 && r.status == OK && r.literal <= room {
      var room1 := room - r.literal;
      if r.info.kind == NoType {
        if !r.end {
          OkIff(fmt[r.consumed..], args, k, room1, mem);
        }
      } else if k < |args| {
        AcceptedIff(r.info, args[k], mem, room1);
        if !r.end && GenStatus(r.info, args[k], mem, room1) == OK {
          OkIff(fmt[r.consumed..], args, k + 1, Less(room1, LaidOutLength(r.info, args[k], mem)), mem);
        }
      }
    }
  }

  // ----- When a successful output is complete -----

  /** A successful argument is complete if and only if its text fits. */
  lemma ArgumentCompleteIff(info: Info, arg: nat, mem: Memory, size: nat)
    requires ArgOk(info, arg, mem, size) && arg < U64 && info.minWidth < U64 && size < U64
    requires GenStatus(info, arg, mem, size) == OK && !Wraps(info, arg)
    ensures ArgText(info, arg, mem).Some?
    ensures ArgText(info, arg, mem).value == GenWritten(info, arg, mem, size) <==>
            |ArgText(info, arg, mem).value| <= size
  {
    hide ItoaParts, ItoaWritten, ItoaStatus, RightFillOverruns, NumberText, ItoaText, Numeral, PrefixWraps;
    if IsNumber(info.kind) {
      var x := SignedValue(info.kind, arg);
      CompleteIff(info, Magnitude(x), BaseOf(info.kind), x >= 0, size);
      ItoaTextIsNumberText(info, Magnitude(x), BaseOf(info.kind), x >= 0);
    } else {
      CutLength(StringText(info, mem[arg]), size);
    }
  }

  /** A successful output is the rendering if and only if there is one and it fits. */
  lemma {:induction false} OutputCompleteIff(fmt: string, args: seq<nat>, k: nat, room: nat, mem: Memory)
    requires ArgsOk(fmt, args, k, room, mem) && room < U64 && forall j :: 0 <= j < |args| ==> args[j] < U64
    requires !WrapsSomewhere(fmt, args, k) && Print(fmt, args, k, room, mem).status == OK
    ensures var o, t := Print(fmt, args, k, room, mem), Rendered(fmt, args, k, mem);
            |o.output| <= room && (t == Some(o.output) <==> t.Some? && |t.value| <= room)
    decreases |fmt|
  {
    OutputLength(fmt, args, k, room, mem);
    var t := Rendered(fmt, args, k, mem);
    if t.Some? && |t.value| <= room {
      FittingIsPrinted(fmt, args, k, room, mem);
    }
  }

  lemma {:induction false} FittingIsPrinted(fmt: string, args: seq<nat>, k: nat, room: nat, mem: Memory)
    requires ArgsOk(fmt, args, k, room, mem) && room < U64 && forall j :: 0 <= j < |args| ==> args[j] < U64
    requires !WrapsSomewhere(fmt, args, k) && Print(fmt, args, k, room, mem).status == OK
    requires Rendered(fmt, args, k, mem).Some? && |Rendered(fmt, args, k, mem).value| <= room
    ensures Print(fmt, args, k, room, mem).output == Rendered(fmt, args, k, mem).value
    decreases |fmt|
  {
    hide NextFormat, GenStatus, GenWritten, ArgOk, ArgText, Wraps;
    NextFormatFacts(fmt);
    var r := NextFormat(fmt);
    if room > 0 {
      var literal, room1 := fmt[..r.literal], room - r.literal;
      if r.info.kind == NoType {
        Pieces(literal, "");
        if !r.end {
          FittingIsPrinted(fmt[r.consumed..], args, k, room1, mem);
        }
      } else {
        ArgumentCompleteIff(r.info, args[k], mem, room1);
        var written := GenWritten(r.info, args[k], mem, room1);
        Pieces(literal, written);
        if !r.end {
          FittingIsPrinted(fmt[r.consumed..], args, k + 1, room1 - |written|, mem);
        }
      }
    }
  }

  /** Where there is a rendering, success and truncation are all that can be reported. */
  lemma {:induction false} RenderingNeverFails(fmt: string, args: seq<nat>, k: nat, room: nat, mem: Memory)
    requires ArgsOk(fmt, args, k, room, mem) && Rendered(fmt, args, k, mem).Some?
    ensures var status := Print(fmt, args, k, room, mem).status; status == OK || status == Truncated
    decreases |fmt|
  {
    hide NextFormat, GenWritten, ArgOk, ItoaStatus, StringStatus;
    NextFormatFacts(fmt);
    var r := NextFormat(fmt);
    if room > 0 && r.literal <= room {
      var room1 := room - r.literal;
      if r.info.kind == NoType {
        if !r.end {
          RenderingNeverFails(fmt[r.consumed..], args, k, room1, mem);
        }
      } else {
        StatusIsBinary(r.info, args[k], mem, room1);
        if !r.end && GenStatus(r.info, args[k], mem, room1) == OK {
          var n := |GenWritten(r.info, args[k], mem, room1)|;
          RenderingNeverFails(fmt[r.consumed..], args, k + 1, if n <= room1 then room1 - n else 0, mem);
        }
      }
    }
  }

  lemma StatusIsBinary(info: Info, arg: nat, mem: Memory, size: nat)
    requires ArgText(info, arg, mem).Some?
    ensures GenStatus(info, arg, mem, size) == OK || GenStatus(info, arg, mem, size) == Truncated
  {
  }

  /**
   The exact failure of the promise that every truncation is reported: the output is incomplete and
   yet no truncation is reported if and only if the rendering is too long and the lengths of the
   items let the run end with success.
   */
  lemma UnreportedIff(fmt: string, args: seq<nat>, room: nat, mem: Memory)
    requires ArgsOk(fmt, args, 0, room, mem) && room < U64 && forall j :: 0 <= j < |args| ==> args[j] < U64
    requires !WrapsSomewhere(fmt, args, 0) && Rendered(fmt, args, 0, mem).Some?
    ensures var o, t := Print(fmt, args, 0, room, mem), Rendered(fmt, args, 0, mem).value;
            (o.output != t && o.status != Truncated <==> |t| > room && EndsInOk(fmt, args, 0, room, mem)) &&
            (o.status == Truncated <==> !EndsInOk(fmt, args, 0, room, mem))
  {
    hide Print, Rendered, EndsInOk, ArgsOk, WrapsSomewhere;
    RenderingNeverFails(fmt, args, 0, room, mem);
    OkIff(fmt, args, 0, room, mem);
    if EndsInOk(fmt, args, 0, room, mem) {
      OutputCompleteIff(fmt, args, 0, room, mem);
    }
  }

  /** No number in the format has an outer fill. */
  predicate NoOuterFill(fmt: string, args: seq<nat>, k: nat)
    decreases |fmt|
  {
    NextFormatFacts(fmt);
    var r := NextFormat(fmt);
    r.status == OK ==>
      (k < |args| && IsNumber(r.info.kind) ==>
         NumberFill(r.info, args[k]).left == 0 && NumberFill(r.info, args[k]).right == 0) &&
      (!r.end ==> NoOuterFill(fmt[r.consumed..], args, if r.info.kind == NoType then k else k + 1))
  }

  /** Without outer fills, and with any room at all, every truncation is reported. */
  lemma {:induction false} ReportedWithoutFill(fmt: string, args: seq<nat>, k: nat, room: nat, mem: Memory)
    requires ArgsOk(fmt, args, k, room, mem) && room < U64 && forall j :: 0 <= j < |args| ==> args[j] < U64
    requires !WrapsSomewhere(fmt, args, k) && Rendered(fmt, args, k, mem).Some?
    requires NoOuterFill(fmt, args, k) && 0 < room && Print(fmt, args, k, room, mem).status == OK
    ensures Print(fmt, args, k, room, mem).output == Rendered(fmt, args, k, mem).value
    decreases |fmt|
  {
    hide Scan, GenStatus, GenWritten, ArgOk, ArgText, Wraps, NumberFill, InnerLength, StringText;
    NextFormatFacts(fmt);
    var r := NextFormat(fmt);
    var literal, room1 := fmt[..r.literal], room - r.literal;
    if r.info.kind == NoType {
      Pieces(literal, "");
      TypedUnlessEnd(fmt, 0, STAGE_START, START_PARSE, 0);
    } else {
      AcceptedIff(r.info, args[k], mem, room1);
      GenIsComplete(r.info, args[k], mem, room1);
      var written := GenWritten(r.info, args[k], mem, room1);
      Pieces(literal, written);
      if !r.end {
        ReportedWithoutFill(fmt[r.consumed..], args, k + 1, room1 - |written|, mem);
      }
    }
  }

  // ----- When a complete output is reported as truncated -----

  /** Accepted items fill the room exactly, and the next argument is refused for want of any room. */
  predicate RefusedAtEnd(fmt: string, args: seq<nat>, k: nat, room: nat, mem: Memory)
    decreases |fmt|
  {
    NextFormatFacts(fmt);
    var r := NextFormat(fmt);
    0 < room && r.status == OK && r.literal <= room && r.info.kind != NoType && k < |args| &&
    var room1 := room - r.literal;
    if Accepted(r.info, args[k], mem, room1) then
      !r.end && RefusedAtEnd(fmt[r.consumed..], args, k + 1, Less(room1, LaidOutLength(r.info, args[k], mem)), mem)
    else room1 == 0
  }

  /** A refused argument has a text that fits in no room but its own, unless it has no text and there is no room. */
  lemma RefusedText(info: Info, arg: nat, mem: Memory, size: nat)
    requires ArgText(info, arg, mem).Some? && !Wraps(info, arg) && arg < U64 && info.minWidth < U64
    requires !Accepted(info, arg, mem, size)
    ensures |ArgText(info, arg, mem).value| == 0 ==> size == 0
  {
    hide NumberText, ItoaText, StringText;
    if IsNumber(info.kind) {
      var x := SignedValue(info.kind, arg);
      ItoaTextIsNumberText(info, Magnitude(x), BaseOf(info.kind), x >= 0);
      NumeralIsExact(Magnitude(x), BaseOf(info.kind));
    }
  }

  /** The output is the rendering, and yet a truncation is reported. */
  ghost predicate FalselyReported(fmt: string, args: seq<nat>, k: nat, room: nat, mem: Memory) {
    var o := Print(fmt, args, k, room, mem);
    o.status == Truncated && Rendered(fmt, args, k, mem) == Some(o.output)
  }

  /** The rendering is as long as the room, and an argument is refused where the room ends. */
  ghost predicate FilledAndRefused(fmt: string, args: seq<nat>, k: nat, room: nat, mem: Memory) {
    var t := Rendered(fmt, args, k, mem);
    RefusedAtEnd(fmt, args, k, room, mem) && t.Some? && |t.value| == room
  }

  /**
   The exact failure of the other direction: a complete output is reported as truncated if and only if
   it fills the room and an argument is refused where the room ends, so that nothing but empty texts follow.
   */
  lemma {:induction false} FalselyReportedIff(fmt: string, args: seq<nat>, k: nat, room: nat, mem: Memory)
    requires ArgsOk(fmt, args, k, room, mem) && room < U64 && forall j :: 0 <= j < |args| ==> args[j] < U64
    requires !WrapsSomewhere(fmt, args, k) && Rendered(fmt, args, k, mem).Some?
    ensures FalselyReported(fmt, args, k, room, mem) <==> FilledAndRefused(fmt, args, k, room, mem)
    decreases |fmt|
  {
    hide Scan, GenStatus, GenWritten, ArgOk, ArgText, Wraps, Accepted, LaidOutLength;
    NextFormatFacts(fmt);
    var r := NextFormat(fmt);
    if room == 0 || r.literal > room {
    } else if r.info.kind == NoType {
      TypedUnlessEnd(fmt, 0, STAGE_START, START_PARSE, 0);
    } else {
      var literal, room1 := fmt[..r.literal], room - r.literal;
      AcceptedIff(r.info, args[k], mem, room1);
      if GenStatus(r.info, args[k], mem, room1) != OK {
        RefusedHere(fmt, args, k, room, mem);
      } else {
        var n := |GenWritten(r.info, args[k], mem, room1)|;
        var rest := if r.end then "" else fmt[r.consumed..];
        if !r.end {
          FalselyReportedIff(rest, args, k + 1, room1 - n, mem);
        }
        AcceptedHere(fmt, args, k, room, mem, r, n, rest);
      }
    }
  }

  /** Behind an accepted argument it depends on the rest. */
  lemma AcceptedHere(fmt: string, args: seq<nat>, k: nat, room: nat, mem: Memory, r: Parsed, n: nat, rest: string)
    requires ArgsOk(fmt, args, k, room, mem) && room < U64 && forall j :: 0 <= j < |args| ==> args[j] < U64
    requires !WrapsSomewhere(fmt, args, k) && Rendered(fmt, args, k, mem).Some?
    requires r == NextFormat(fmt) && r.info.kind != NoType && r.literal <= room && 0 < room
    requires GenStatus(r.info, args[k], mem, room - r.literal) == OK && Accepted(r.info, args[k], mem, room - r.literal)
    requires n == |GenWritten(r.info, args[k], mem, room - r.literal)|
    requires n == Min(LaidOutLength(r.info, args[k], mem), room - r.literal)
    requires !r.end ==> r.consumed <= |fmt| && rest == fmt[r.consumed..]
    requires !r.end ==> (FalselyReported(rest, args, k + 1, room - r.literal - n, mem) <==>
                         FilledAndRefused(rest, args, k + 1, room - r.literal - n, mem))
    ensures FalselyReported(fmt, args, k, room, mem) <==> FilledAndRefused(fmt, args, k, room, mem)
  {
    hide NextFormat, GenStatus, GenWritten, ArgOk, ArgText, Wraps, Accepted, LaidOutLength;
    NextFormatFacts(fmt);
    var room1 := room - r.literal;
    GenIsComplete(r.info, args[k], mem, room1);
    if !r.end {
      NoRoomLeft(rest, args, k + 1, mem);
      if n < room1 {
        SameStart(fmt[..r.literal] + GenWritten(r.info, args[k], mem, room1),
                  Print(rest, args, k + 1, room1 - n, mem).output, Rendered(rest, args, k + 1, mem).value);
      }
    }
  }

  lemma RefusedHere(fmt: string, args: seq<nat>, k: nat, room: nat, mem: Memory)
    requires Rendered(fmt, args, k, mem).Some? && !WrapsSomewhere(fmt, args, k)
    requires forall j :: 0 <= j < |args| ==> args[j] < U64
    requires NextFormat(fmt).info.kind != NoType && NextFormat(fmt).literal <= room && 0 < room
    requires GenStatus(NextFormat(fmt).info, args[k], mem, room - NextFormat(fmt).literal) != OK
    requires !Accepted(NextFormat(fmt).info, args[k], mem, room - NextFormat(fmt).literal)
    ensures FalselyReported(fmt, args, k, room, mem) <==> FilledAndRefused(fmt, args, k, room, mem)
  {
    hide NextFormat, GenStatus, GenWritten, ArgText, Wraps, Accepted, LaidOutLength;
    NextFormatFacts(fmt);
    var r := NextFormat(fmt);
    RefusedText(r.info, args[k], mem, room - r.literal);
    StatusIsBinary(r.info, args[k], mem, room - r.literal);
    RefusedIff(fmt[..r.literal], ArgText(r.info, args[k], mem).value,
               if r.end then "" else Rendered(fmt[r.consumed..], args, k + 1, mem).value);
  }

  lemma SameStart(s: string, t: string, u: string)
    ensures s + t == s + u <==> t == u
  {
    assert (s + t)[|s|..] == t && (s + u)[|s|..] == u;
  }

  lemma RefusedIff(literal: string, own: string, rest: string)
    ensures literal == literal + own + rest <==> |literal + own + rest| == |literal|
    ensures |literal + own + rest| == |literal| ==> own == "" && rest == ""
  {
  }

  // ----- How a run goes on and how it stops -----

  /**
   Pieces whose meaning fits with room to spare are printed, and then the run goes on with the rest of
   the format, whatever that is, and the arguments behind theirs.
   */
  lemma {:induction false} PrintsThrough(pieces: seq<Piece>, rest: string, args: seq<nat>, k: nat, room: nat,
                                         mem: Memory)
    requires (forall i :: 0 <= i < |pieces| ==> pieces[i].Ok()) && AllSuit(pieces, args, k, mem)
    requires room < U64 && forall j :: 0 <= j < |args| ==> args[j] < U64
    ensures var t := Meant(pieces, "", args, k, mem);
            t.Some? &&
            (|t.value| < room ==>
               Print(Written(pieces, rest), args, k, room, mem) ==
               After(t.value, Print(rest, args, k + |pieces|, room - |t.value|, mem)))
    decreases |pieces|
  {
    hide Print, ArgText, Piece.Text, AllSuit, Suits;
    if pieces == [] {
      AfterNone(Print(rest, args, k, room, mem));
    } else {
      var p := pieces[0];
      RestSuits(pieces, args, k, mem);
      SuitingHasText(Recovered(p.info), args[k], mem);
      var own := ArgText(Recovered(p.info), args[k], mem).value;
      var used := |p.literal| + |own|;
      PrintsThrough(pieces[1..], rest, args, k + 1, if used <= room then room - used else 0, mem);
      var behind := Meant(pieces[1..], "", args, k + 1, mem).value;
      assert |p.literal + own + behind| == used + |behind|;
      if used + |behind| < room {
        OnePrintsThrough(p, Written(pieces[1..], rest), args, k, room, mem);
        AfterTwo(p.literal + own, behind, Print(rest, args, k + |pieces|, room - used - |behind|, mem));
      }
    }
  }

  lemma PieceIsRead(p: Piece, rest: string)
    requires p.Ok()
    ensures var fmt := p.Text() + rest;
            NextFormat(fmt) == Parsed(OK, Recovered(p.info), |p.Text()|, |p.literal|, false) &&
            |p.Text()| <= |fmt| && fmt[|p.Text()|..] == rest && fmt[..|p.literal|] == p.literal &&
            Recovered(p.info).kind == p.info.kind != NoType
  {
    hide NextFormat, Piece.Text;
    FirstIsRead([p], rest);
    assert [p][1..] == [] && Written([], rest) == rest;
  }

  lemma OnePrintsThrough(p: Piece, rest: string, args: seq<nat>, k: nat, room: nat, mem: Memory)
    requires p.Ok() && room < U64 && k < |args| && Suits(Recovered(p.info), args[k], mem)
    requires ArgText(Recovered(p.info), args[k], mem).Some?
    requires |p.literal| + |ArgText(Recovered(p.info), args[k], mem).value| < room
    ensures var own := ArgText(Recovered(p.info), args[k], mem).value;
            Print(p.Text() + rest, args, k, room, mem) ==
            After(p.literal + own, Print(rest, args, k + 1, room - |p.literal| - |own|, mem))
  {
    hide NextFormat, ArgText, Piece.Text, GenStatus, GenWritten, Suits;
    PieceIsRead(p, rest);
    SuitedIsPrinted(Recovered(p.info), args[k], mem, room - |p.literal|);
  }

  lemma AfterNone(o: Outcome)
    ensures After("", o) == o
  {
  }

  lemma AfterTwo(s: string, t: string, o: Outcome)
    ensures After(s, After(t, o)) == After(s + t, o)
  {
    assert s + (t + o.output) == s + t + o.output;
  }

  /** An argument that suits, and fits with room to spare, is printed completely. */
  lemma SuitedIsPrinted(info: Info, arg: nat, mem: Memory, size: nat)
    requires Suits(info, arg, mem) && info.kind != NoType && info.minWidth < U64 && size < U64
    requires ArgText(info, arg, mem).Some? && |ArgText(info, arg, mem).value| < size
    ensures GenStatus(info, arg, mem, size) == OK && GenWritten(info, arg, mem, size) == ArgText(info, arg, mem).value
  {
    hide ArgText, GenStatus, GenWritten, ArgOk;
    FittingIsOk(info, arg, mem, size);
    GenIsComplete(info, arg, mem, size);
  }

  /**
   Which error stops a run behind pieces that fit, with the pieces and the literal text up to the error as
   the output: no argument left, a NULL string, or an argument for which there is no room.
   */
  lemma StopsAt(pieces: seq<Piece>, p: Piece, rest: string, args: seq<nat>, room: nat, mem: Memory)
    requires (forall i :: 0 <= i < |pieces| ==> pieces[i].Ok()) && AllSuit(pieces, args, 0, mem) && p.Ok()
    requires room < U64 && forall j :: 0 <= j < |args| ==> args[j] < U64
    ensures var t, k := Meant(pieces, "", args, 0, mem), |pieces|;
            t.Some? &&
            (|t.value| < room && |t.value + p.literal| <= room ==>
               var o, left := Print(Written(pieces, p.Text() + rest), args, 0, room, mem), room - |t.value + p.literal|;
               (k >= |args| ==> o == Outcome(MissingPlaceholder, t.value + p.literal, left)) &&
               (k < |args| && p.info.kind == Text && args[k] == 0 ==>
                  o == Outcome(MissingArgument, t.value + p.literal, left)) &&
               (k < |args| && Suits(Recovered(p.info), args[k], mem) && ArgOk(Recovered(p.info), args[k], mem, left) &&
                !Accepted(Recovered(p.info), args[k], mem, left) ==>
                  o == Outcome(Truncated, t.value + p.literal, left)))
  {
    hide Print, Meant, NextFormat, ArgText, Piece.Text, Written, Accepted, AllSuit, ArgOk, Suits, GenStatus;
    PrintsThrough(pieces, p.Text() + rest, args, 0, room, mem);
    var t, k := Meant(pieces, "", args, 0, mem).value, |pieces|;
    if |t| < room && |t + p.literal| <= room {
      ErrorHere(p, rest, args, k, room - |t|, mem);
      if k < |args| {
        WhyRefused(Recovered(p.info), args[k], mem, room - |t + p.literal|);
      }
    }
  }

  lemma ErrorHere(p: Piece, rest: string, args: seq<nat>, k: nat, room: nat, mem: Memory)
    requires p.Ok() && |p.literal| <= room && 0 < room
    ensures var o, left := Print(p.Text() + rest, args, k, room, mem), room - |p.literal|;
            if k >= |args| then o == Outcome(MissingPlaceholder, p.literal, left)
            else
              var status := GenStatus(Recovered(p.info), args[k], mem, left);
              status != OK ==> o == Outcome(status, p.literal, left)
  {
    hide NextFormat, Piece.Text, GenStatus, GenWritten;
    PieceIsRead(p, rest);
  }

  lemma WhyRefused(info: Info, arg: nat, mem: Memory, left: nat)
    requires info.kind != NoType
    ensures info.kind == Text && arg == 0 ==> GenStatus(info, arg, mem, left) == MissingArgument
    ensures Suits(info, arg, mem) && ArgOk(info, arg, mem, left) && !Accepted(info, arg, mem, left) ==>
              GenStatus(info, arg, mem, left) == Truncated
  {
    hide ArgText, Accepted, ArgOk, Suits, ItoaStatus, StringStatus;
    if Suits(info, arg, mem) && ArgOk(info, arg, mem, left) && !Accepted(info, arg, mem, left) {
      SuitingHasText(info, arg, mem);
      StatusIsBinary(info, arg, mem, left);
      AcceptedIff(info, arg, mem, left);
    }
  }

  /** A format in error stops the run behind the pieces in front of it. */
  lemma StopsAtInvalid(pieces: seq<Piece>, bad: string, args: seq<nat>, room: nat, mem: Memory)
    requires (forall i :: 0 <= i < |pieces| ==> pieces[i].Ok()) && AllSuit(pieces, args, 0, mem)
    requires room < U64 && forall j :: 0 <= j < |args| ==> args[j] < U64
    requires NextFormat(bad).status == InvalidFormat
    ensures var t := Meant(pieces, "", args, 0, mem);
            t.Some? &&
            (|t.value| < room ==>
               Print(Written(pieces, bad), args, 0, room, mem) == Outcome(InvalidFormat, t.value, room - |t.value|))
  {
    hide NextFormat, Written, Meant, AllSuit;
    PrintsThrough(pieces, bad, args, 0, room, mem);
  }

  /** So does literal text for which there is no room: none of it is counted. */
  lemma StopsAtLongLiteral(pieces: seq<Piece>, rest: string, args: seq<nat>, room: nat, mem: Memory)
    requires (forall i :: 0 <= i < |pieces| ==> pieces[i].Ok()) && AllSuit(pieces, args, 0, mem)
    requires room < U64 && forall j :: 0 <= j < |args| ==> args[j] < U64
    requires NextFormat(rest).status == OK
    ensures var t := Meant(pieces, "", args, 0, mem);
            t.Some? &&
            (|t.value| < room < |t.value| + NextFormat(rest).literal ==>
               Print(Written(pieces, rest), args, 0, room, mem) == Outcome(Truncated, t.value, room - |t.value|))
  {
    hide NextFormat, Written, Meant, AllSuit;
    PrintsThrough(pieces, rest, args, 0, room, mem);
  }

  // ----- Inputs -----

  /** A minimum width of n for the number 7, whose one digit n - 1 spaces precede. */
  function Wide(n: nat): Info {
    NO_INFO.(kind := Decimal, minWidth := n)
  }

  /** The format {:nd} and the text behind it. */
  function WideFormat(n: nat, tail: string): string {
    Written([Piece("", Wide(n), "", false, 0)], tail)
  }

  lemma WideFormats()
    ensures WideFormat(5, "") == "{:5d}" && WideFormat(2, "x") == "{:2d}x"
  {
    NumeralStep(5, 10);
    NumeralStep(2, 10);
    assert SpecText(Wide(5), false, 0) == "5d}";
    assert SpecText(Wide(2), false, 0) == "2d}";
    assert Written([], "") == "" && Written([], "x") == "x";
    assert [Piece("", Wide(5), "", false, 0)][1..] == [] && [Piece("", Wide(2), "", false, 0)][1..] == [];
    assert Descriptor(Wide(5), "", false, 0) == "{:5d}" && Descriptor(Wide(2), "", false, 0) == "{:2d}";
  }

  lemma SevenIsOneDigit()
    ensures Emitted(7, 10) == "7" && Numeral(7, 10) == "7"
  {
    NumeralStep(7, 10);
  }

  lemma SevenParts(n: nat)
    requires 1 < n < U64
    ensures PartsOf(Wide(n), 7) == Parts(Fill(' ', n - 1, 0, 0, 0), "", "", "7")
    ensures ArgText(Wide(n), 7, map[]) == Some(Repeat(' ', n - 1) + "7") && Suits(Wide(n), 7, map[])
  {
    hide Emitted, Numeral, Repeat;
    SevenIsOneDigit();
    var f := Fill(' ', n - 1, 0, 0, 0);
    assert Place(Wide(n), n - 1) == f;
    assert NumberText(Wide(n), 7, 10, true) == Assemble(f, "", "", "7");
    LeftFilled(n - 1, "7");
  }

  lemma LeftFilled(n: nat, digits: string)
    ensures Assemble(Fill(' ', n, 0, 0, 0), "", "", digits) == Repeat(' ', n) + digits
  {
    var spaces, none := Repeat(' ', n), Repeat(' ', 0);
    assert none == "" && spaces + "" + none + "" + none + digits + none == spaces + digits;
  }

  /** With room for the digit but not for all spaces, the number is a success that fills the room. */
  lemma SevenIsCut(n: nat, size: nat)
    requires 1 < size <= n < U64
    ensures GenStatus(Wide(n), 7, map[], size) == OK
    ensures GenWritten(Wide(n), 7, map[], size) == Repeat(' ', size - 1) + "7"
  {
    hide ItoaParts;
    SevenParts(n);
    var p := Parts(Fill(' ', n - 1, 0, 0, 0), "", "", "7");
    assert p.Before(1) == "7";
    assert p.Before(2) == p.Before(1) + Repeat(' ', 0) == "7";
    assert p.Before(3) == p.Before(2) + Reverse("") == "7";
    assert p.Before(4) == p.Before(3) + Repeat(' ', 0) == "7";
    assert p.Before(5) == p.Before(4) + "" == "7";
    assert p.Emission() == "7" + Repeat(' ', n - 1);
    assert Cut(p.Emission(), size) == "7" + Repeat(' ', size - 1);
    ReverseConcat("7", Repeat(' ', size - 1));
    ReverseRepeat(' ', size - 1);
    ReverseShort("7");
    assert Repeat(' ', 0) == "";
  }

  /**
   A family of inputs that the formatter accepts, with a buffer of size + 1 characters: the status is OK
   and the length is size, yet spaces of the number, or the text behind it, are missing.
   */
  lemma WideIsCut(n: nat, size: nat, tail: string, args: seq<nat>)
    requires 1 < size <= n < U64 && (size < n || tail != "") && '{' !in tail
    requires args != [] && args[0] == 7 && forall j :: 0 <= j < |args| ==> args[j] < U64
    ensures var fmt := WideFormat(n, tail);
            ArgsOk(fmt, args, 0, size, map[]) && !WrapsSomewhere(fmt, args, 0) &&
            Print(fmt, args, 0, size, map[]) == Outcome(OK, Repeat(' ', size - 1) + "7", 0) &&
            Rendered(fmt, args, 0, map[]) == Some(Repeat(' ', n - 1) + "7" + tail)
  {
    hide NextFormat, GenStatus, GenWritten, ArgText, ArgsOk, WrapsSomewhere, Suits, Rendered, Repeat, Piece.Text;
    var pieces := [Piece("", Wide(n), "", false, 0)];
    SevenParts(n);
    SevenIsCut(n, size);
    assert AllOk(pieces, tail) && Recovered(Wide(n)) == Wide(n);
    assert AllSuit(pieces, args, 0, map[]);
    assert NoneRightFilled(pieces);
    AllAreOk(pieces, tail, args, 0, size, map[]);
    SuitingIsMeaningful(pieces, tail, args, 0, map[]);
    RenderedIsMeant(pieces, tail, args, 0, map[]);
    assert pieces[1..] == [] && Meant([], tail, args, 1, map[]) == Some(tail);
    FirstIsRead(pieces, tail);
    RepeatLength(' ', size - 1);
    NoRoomLeft(Written(pieces[1..], tail), args, 1, map[]);
    assert "" + (Repeat(' ', size - 1) + "7") + "" == Repeat(' ', size - 1) + "7";
    assert "" + (Repeat(' ', n - 1) + "7") + tail == Repeat(' ', n - 1) + "7" + tail;
  }

  /** Two of them: in the first the number is cut, in the second it is complete and the x is dropped. */
  lemma SilentTruncation(args: seq<nat>)
    requires args != [] && args[0] == 7 && forall j :: 0 <= j < |args| ==> args[j] < U64
    ensures ArgsOk("{:5d}", args, 0, 3, map[]) && ArgsOk("{:2d}x", args, 0, 2, map[])
    ensures Print("{:5d}", args, 0, 3, map[]) == Outcome(OK, "  7", 0)
    ensures Rendered("{:5d}", args, 0, map[]) == Some("    7")
    ensures Print("{:2d}x", args, 0, 2, map[]) == Outcome(OK, " 7", 0)
    ensures Rendered("{:2d}x", args, 0, map[]) == Some(" 7x")
  {
    hide Print, Rendered, ArgsOk, WrapsSomewhere, WideFormat;
    WideFormats();
    WideIsCut(5, 3, "", args);
    WideIsCut(2, 2, "x", args);
    assert Repeat(' ', 2) + "7" == "  7" && Repeat(' ', 4) + "7" + "" == "    7";
    assert Repeat(' ', 1) + "7" == " 7" && Repeat(' ', 1) + "7" + "x" == " 7x";
  }

  const PLAIN_TEXT := NO_INFO.(kind := Text)

  /** The format with the given literal text and {:s} behind it. */
  function TextFormat(literal: string): string {
    Written([Piece(literal, PLAIN_TEXT, "", false, 0)], "")
  }

  lemma EmptyText(arg: nat, mem: Memory)
    requires 0 < arg < U64 && arg in mem && mem[arg] == ""
    ensures ArgText(PLAIN_TEXT, arg, mem) == Some("") && GenStatus(PLAIN_TEXT, arg, mem, 0) == Truncated
    ensures Suits(PLAIN_TEXT, arg, mem)
  {
    hide StringText, PartsOf, NumberText, ItoaStatus;
    StringTextWidth(PLAIN_TEXT, "");
    assert StringText(PLAIN_TEXT, "") == "";
  }

  /** Literal text that fills the room and an empty string behind it: complete, and reported as truncated. */
  lemma EmptyIsRefused(literal: string, args: seq<nat>, mem: Memory)
    requires literal != "" && '{' !in literal && |literal| < U64
    requires args != [] && args[0] != 0 && args[0] in mem && mem[args[0]] == ""
    requires forall j :: 0 <= j < |args| ==> args[j] < U64
    ensures var fmt, room := TextFormat(literal), |literal|;
            ArgsOk(fmt, args, 0, room, mem) && Print(fmt, args, 0, room, mem) == Outcome(Truncated, literal, 0) &&
            Rendered(fmt, args, 0, mem) == Some(literal)
  {
    hide NextFormat, ArgsOk, Rendered, Piece.Text, ArgText, GenStatus, GenWritten, Suits;
    var pieces := [Piece(literal, PLAIN_TEXT, "", false, 0)];
    EmptyText(args[0], mem);
    assert AllOk(pieces, "") && Recovered(PLAIN_TEXT) == PLAIN_TEXT;
    assert AllSuit(pieces, args, 0, mem) && NoneRightFilled(pieces);
    AllAreOk(pieces, "", args, 0, |literal|, mem);
    RenderedIsMeant(pieces, "", args, 0, mem);
    assert pieces[1..] == [] && Meant([], "", args, 1, mem) == Some("") && literal + "" + "" == literal;
    FirstIsRead(pieces, "");
  }

  /** One of them in a buffer of 3 characters. */
  lemma FalseReport(args: seq<nat>, mem: Memory)
    requires args != [] && args[0] != 0 && args[0] in mem && mem[args[0]] == ""
    requires forall j :: 0 <= j < |args| ==> args[j] < U64
    ensures ArgsOk("ab{:s}", args, 0, 2, mem) && Print("ab{:s}", args, 0, 2, mem) == Outcome(Truncated, "ab", 0)
    ensures Rendered("ab{:s}", args, 0, mem) == Some("ab")
  {
    hide Print, Rendered, ArgsOk;
    assert Descriptor(PLAIN_TEXT, "", false, 0) == "{:s}";
    assert Written([], "") == "" && [Piece("ab", PLAIN_TEXT, "", false, 0)][1..] == [];
    assert TextFormat("ab") == "ab{:s}";
    EmptyIsRefused("ab", args, mem);
  }
}
