/**
 snprint of src/string_util.c: the driver that alternates literal text and formatted
 arguments in a bounded buffer.
 */
module Snprint {
  import opened Util
  import opened Buffers
  import opened Digits
  import opened Layout
  import opened NumberPrinter
  import opened StringArg
  import opened FormatSpec
  import opened Rendering
  import opened Truncation

  const MAX_ARG_CNT: nat := 5

  // ----- One argument -----

  /** sitoa */
  method SItoa(buf: array<char>, at: nat, size: nat, x: int, base: nat, info: Info)
    returns (ret: Status, remaining: nat)
    requires IsBase(base) && size < U64 && info.minWidth < U64 && at + size <= buf.Length
    requires -0x8000_0000_0000_0000 < x < U64
    requires at + |ItoaWritten(ItoaParts(info, Magnitude(x), base, x >= 0), size)| <= buf.Length
    modifies buf
    ensures var p := ItoaParts(info, Magnitude(x), base, x >= 0);
            Wrote(old(buf[..]), buf[..], at, ItoaWritten(p, size)) && ret == ItoaStatus(p, size) &&
            remaining == (size - |ItoaWritten(p, size)|) % U64
  {
    hide ItoaParts, ItoaWritten, ItoaStatus;
    var positive, val := true, x;
    if val < 0 {
      positive := false;
      val := -val;
    }
    ret, remaining := Itoa(buf, at, size, val, base, info, positive);
  }

  /** gen_str */
  method GenStr(buf: array<char>, at: nat, size: nat, info: Info, arg: nat, mem: Memory)
    returns (ret: Status, len: nat)
    requires size < U64 && arg < U64 && info.minWidth < U64 && at + size <= buf.Length
    requires ArgOk(info, arg, mem, size)
    modifies buf
    ensures Wrote(old(buf[..]), buf[..], at, GenWritten(info, arg, mem, size))
    ensures ret == GenStatus(info, arg, mem, size)
    ensures len == |GenWritten(info, arg, mem, size)| <= size
  {
    hide ItoaParts, ItoaWritten, ItoaStatus, RightFillOverruns, Wrote, StringWritten, StringStatus;
    WrittenFits(info, arg, mem, size);
    var remaining := size;
    match info.kind {
      case Binary => ret, remaining := Itoa(buf, at, size, arg, 2, info, true);
      case Decimal => ret, remaining := SItoa(buf, at, size, SignedValue(Decimal, arg), 10, info);
      case Octal => ret, remaining := Itoa(buf, at, size, arg, 8, info, true);
      case LowHex => ret, remaining := Itoa(buf, at, size, arg, 16, info, true);
      case Text =>
        if arg == 0 {
          ret := MissingArgument;
          WroteNothing(buf[..], at);
        } else {
          ret, remaining := StringToA(buf, at, size, mem[arg], info);
        }
      case NoType =>
        ret := InvalidFormat;
        WroteNothing(buf[..], at);
    }
    len := size - remaining;
  }

  // ----- snprint -----

  /** The cases of one round, as Print and ArgsOk define them. */
  lemma PrintCases(fmt: string, args: seq<nat>, k: nat, room: nat, mem: Memory)
    requires 0 < room && ArgsOk(fmt, args, k, room, mem)
    ensures var r := NextFormat(fmt);
            var o := Print(fmt, args, k, room, mem);
            (r.status != OK ==> o == Outcome(r.status, "", room)) &&
            (r.status == OK && r.literal > room ==> o == Outcome(Truncated, "", room)) &&
            (r.status == OK && r.literal <= room ==>
               AfterLiteral(r, fmt, args, k, room - r.literal, mem, o))
  {
    hide NextFormat, GenStatus, GenWritten, ArgOk;
    NextFormatFacts(fmt);
    var r := NextFormat(fmt);
    if r.status == OK && r.literal <= room && r.info.kind != NoType && k < |args| {
      WrittenFits(r.info, args[k], mem, room - r.literal);
    }
  }

  /** How a round goes on once the literal text is written. */
  predicate AfterLiteral(r: Parsed, fmt: string, args: seq<nat>, k: nat, room: nat, mem: Memory, o: Outcome)
    requires r == NextFormat(fmt) && r.status == OK
  {
    NextFormatFacts(fmt);
    var literal := fmt[..r.literal];
    if r.info.kind == NoType then
      if r.end then o == Outcome(OK, literal, room)
      else ArgsOk(fmt[r.consumed..], args, k, room, mem) &&
           o == After(literal, Print(fmt[r.consumed..], args, k, room, mem))
    else if k >= |args| then o == Outcome(MissingPlaceholder, literal, room)
    else
      var status, text := GenStatus(r.info, args[k], mem, room), GenWritten(r.info, args[k], mem, room);
      ArgOk(r.info, args[k], mem, room) &&
      (status != OK ==> o == Outcome(status, literal, room)) &&
      (status == OK && r.end ==> |text| <= room && o == Outcome(OK, literal + text, room - |text|)) &&
      (status == OK && !r.end ==>
         |text| <= room && ArgsOk(fmt[r.consumed..], args, k + 1, room - |text|, mem) &&
         o == After(literal + text, Print(fmt[r.consumed..], args, k + 1, room - |text|, mem)))
  }

  /** Text written behind what is already there. */
  lemma Appended(before: string, after: string, start: nat, at: nat, text: string)
    requires Wrote(before, after, at, text) && start <= at
    ensures |after| == |before| && at + |text| <= |after|
    ensures after[start..at + |text|] == before[start..at] + text
    ensures after[..at] == before[..at]
    ensures forall k :: at + |text| <= k < |before| ==> after[k] == before[k]
  {
  }

  method CopyLiteral(str: array<char>, done: nat, room: nat, text: string)
    requires done + room < str.Length
    modifies str
    ensures str[..done] == old(str[..done])
    ensures forall j :: done + room <= j < str.Length ==> str[j] == old(str[j])
    ensures |text| <= room ==> str[done..done + |text|] == text
  {
    hide Wrote, Cut;
    ghost var a := str[..];
    var copied := Memscpy(str, done, room, text);
    Appended(a, str[..], done, done, Cut(text, room));
    CutLength(text, room);
  }

  method PrintArgument(str: array<char>, done: nat, at: nat, size: nat, info: Info, arg: nat, mem: Memory)
    returns (ret: Status, len: nat)
    requires done <= at && at + size < str.Length && size < U64 && arg < U64 && info.minWidth < U64
    requires ArgOk(info, arg, mem, size)
    modifies str
    ensures str[..at] == old(str[..at]) && len <= size
    ensures forall j :: at + size <= j < str.Length ==> str[j] == old(str[j])
    ensures ret == GenStatus(info, arg, mem, size) && len == |GenWritten(info, arg, mem, size)|
    ensures str[done..at] == old(str[done..at])
    ensures str[done..at + len] == old(str[done..at]) + GenWritten(info, arg, mem, size)
  {
    hide Wrote, GenWritten, GenStatus, ArgOk;
    ghost var b := str[..];
    ret, len := GenStr(str, at, size, info, arg, mem);
    Appended(b, str[..], done, at, GenWritten(info, arg, mem, size));
    assert str[done..at] == str[..at][done..];
  }

  /**
   One round of the loop: a piece of literal text and the argument after it.  It stops at an
   error or at the end of the format, and otherwise leaves the rest of the format to do.
   */
  method PrintNext(str: array<char>, done: nat, room: nat, fmt: string, args: seq<nat>, k: nat, mem: Memory)
    returns (status: Status, fmt': string, k': nat, done': nat, stop: bool)
    requires 0 < room < U64 && done + room < str.Length && |fmt| < 0x1_0000_0000
    requires ArgsOk(fmt, args, k, room, mem) && forall j :: 0 <= j < |args| ==> args[j] < U64
    modifies str
    ensures done <= done' <= done + room && |fmt'| <= |fmt|
    ensures str[..done] == old(str[..done])
    ensures forall j :: done + room <= j < str.Length ==> str[j] == old(str[j])
    ensures stop ==> Print(fmt, args, k, room, mem) == Outcome(status, str[done..done'], room - (done' - done))
    ensures !stop ==>
              status == OK && |fmt'| < |fmt| && ArgsOk(fmt', args, k', room - (done' - done), mem) &&
              Print(fmt, args, k, room, mem) ==
              After(str[done..done'], Print(fmt', args, k', room - (done' - done), mem))
  {
    hide NextFormat, GenStatus, GenWritten, ArgOk, Wrote, Print, ArgsOk, After, Cut;
    NextFormatFacts(fmt);
    PrintCases(fmt, args, k, room, mem);
    var info := new FmtInfo();
    fmt', k', done', stop := fmt, k, done, true;
    var consumed, literal, end;
    status, consumed, literal, end := GetNextFmt(fmt, info);
    if status != OK {
      return;
    }
    CopyLiteral(str, done, room, fmt[..literal]);
    if literal > room {
      status := Truncated;
      return;
    }
    done' := done + literal;
    if info.kind != NoType {
      if k >= |args| {
        status := MissingPlaceholder;
        return;
      }
      var len;
      status, len := PrintArgument(str, done, done', room - literal, info.Value(), args[k], mem);
      assert str[..done] == str[..done'][..done];
      if status != OK {
        return;
      }
      done' := done' + len;
      k' := k + 1;
    }
    if !end {
      fmt' := fmt[consumed..];
      stop := false;
    }
  }

  lemma AfterNothing(o: Outcome)
    ensures After("", o) == o
  {
  }

  lemma AfterAll(text: string)
    ensures After(text, Outcome(OK, "", 0)) == Outcome(OK, text, 0)
  {
  }

  /** Two pieces of output, one after the other: what a round adds when it stops, and when it goes on. */
  lemma AfterAfter(text: string, piece: string, o: Outcome, rest: Outcome)
    ensures o == After(piece, rest) ==> After(text, o) == After(text + piece, rest)
    ensures After(text, Outcome(o.status, piece, o.room)) == Outcome(o.status, text + piece, o.room)
  {
  }

  /** The loop of snprint. */
  method PrintAll(str: array<char>, room: nat, format: string, args: seq<nat>, mem: Memory)
    returns (e: Status, done: nat)
    requires room < U64 && room < str.Length && |format| < 0x1_0000_0000
    requires ArgsOk(format, args, 0, room, mem) && forall j :: 0 <= j < |args| ==> args[j] < U64
    modifies str
    ensures done <= room && Print(format, args, 0, room, mem) == Outcome(e, str[..done], room - done)
    ensures forall j :: room < j < str.Length ==> str[j] == old(str[j])
  {
    hide ArgsOk, Print, After;
    AfterNothing(Print(format, args, 0, room, mem));
    ghost var o := Print(format, args, 0, room, mem);
    var fmt, k, stop := format, 0, false;
    e, done := OK, 0;
    while done < room && !stop
      invariant done <= room && |fmt| < 0x1_0000_0000
      invariant stop ==> o == Outcome(e, str[..done], room - done)
      invariant !stop ==> e == OK && ArgsOk(fmt, args, k, room - done, mem)
      invariant !stop ==> o == After(str[..done], Print(fmt, args, k, room - done, mem))
      invariant forall j :: room < j < str.Length ==> str[j] == old(str[j])
      decreases !stop, |fmt|
    {
      ghost var before := str[..done];
      ghost var was := Print(fmt, args, k, room - done, mem);
      var done';
      e, fmt, k, done', stop := PrintNext(str, done, room - done, fmt, args, k, mem);
      assert str[..done'] == before + str[done..done'];
      AfterAfter(before, str[done..done'], was, Print(fmt, args, k, room - done', mem));
      done := done';
    }
    if !stop {
      NoRoomLeft(fmt, args, k, mem);
      AfterAll(str[..done]);
    }
  }

  /** snprint */
  method Snprint(str: array<char>, size: nat, format: string, args: seq<nat>, mem: Memory)
    returns (e: Status, r: nat)
    requires 1 <= size <= str.Length && size < U64 && |format| < 0x1_0000_0000
    requires |args| == MAX_ARG_CNT && forall j :: 0 <= j < |args| ==> args[j] < U64
    requires ArgsOk(format, args, 0, size - 1, mem)
    modifies str
    ensures var o := Print(format, args, 0, size - 1, mem);
            e == o.status && |o.output| < size && str[..|o.output|] == o.output && str[|o.output|] == '\0' &&
            r == if e == Truncated then size else |o.output|
    ensures forall j :: size <= j < str.Length ==> str[j] == old(str[j])
    ensures e == OK && r < size - 1 ==>
              Rendered(format, args, 0, mem) == Some(str[..r]) && str[r] == '\0' && !WrapsSomewhere(format, args, 0)
    ensures var t := Rendered(format, args, 0, mem);
            t.Some? && |t.value| < size - 1 && !WrapsSomewhere(format, args, 0) ==>
              e == OK && r == |t.value| && str[..r] == t.value
    ensures e == OK <==> EndsInOk(format, args, 0, size - 1, mem)
    ensures e == OK && !WrapsSomewhere(format, args, 0) ==>
              var t := Rendered(format, args, 0, mem);
              (t == Some(str[..r]) <==> t.Some? && |t.value| <= size - 1)
    ensures Rendered(format, args, 0, mem).Some? ==> e == OK || e == Truncated
    ensures r >= size <==> e == Truncated
    ensures var o, t := Print(format, args, 0, size - 1, mem), Rendered(format, args, 0, mem);
            t.Some? && !WrapsSomewhere(format, args, 0) ==>
              (r >= size && o.output == t.value <==>
               RefusedAtEnd(format, args, 0, size - 1, mem) && |t.value| == size - 1)
  {
    hide ArgsOk, Print, Rendered, WrapsSomewhere, EndsInOk, RefusedAtEnd;
    PrintRefinesRendering(format, args, 0, size - 1, mem);
    OkIff(format, args, 0, size - 1, mem);
    if Print(format, args, 0, size - 1, mem).status == OK && !WrapsSomewhere(format, args, 0) {
      OutputCompleteIff(format, args, 0, size - 1, mem);
    }
    if Rendered(format, args, 0, mem).Some? {
      RenderingNeverFails(format, args, 0, size - 1, mem);
      if !WrapsSomewhere(format, args, 0) {
        FalselyReportedIff(format, args, 0, size - 1, mem);
      }
    }
    var done;
    e, done := PrintAll(str, size - 1, format, args, mem);
    ghost var output := str[..done];
    str[done] := '\0';
    assert str[..done] == output;
    r := if e == Truncated then size else done;
  }
}
