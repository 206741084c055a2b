/**
 Formats as their writer means them: literal text and descriptors of the documented grammar in
 turn.  Parsing and rendering such a format gives the literals and the arguments' texts.
 */
module Template {
  import opened Util
  import opened Layout
  import opened NumberPrinter
  import opened FormatSpec
  import opened FormatRoundTrip
  import opened Rendering

  /** Literal text and the descriptor behind it, with the spelling that the grammar leaves open. */
  datatype Piece = Piece(literal: string, info: Info, name: string, dash: bool, spaces: nat) {
    predicate Ok() {
      Writable(info) && '{' !in literal && ':' !in name
    }

    function Text(): string {
      literal + Descriptor(info, name, dash, spaces)
    }
  }

  predicate AllOk(pieces: seq<Piece>, tail: string) {
    '{' !in tail && forall i :: 0 <= i < |pieces| ==> pieces[i].Ok()
  }

  /** The format that is written. */
  function Written(pieces: seq<Piece>, tail: string): string {
    if pieces == [] then tail else pieces[0].Text() + Written(pieces[1..], tail)
  }

  /** What its writer means, with the arguments from the k-th on. */
  function Meant(pieces: seq<Piece>, tail: string, args: seq<nat>, k: nat, mem: Memory): Option<string> {
    if pieces == [] then Some(tail)
    else
      var own := if k < |args| then ArgText(Recovered(pieces[0].info), args[k], mem) else None;
      var rest := Meant(pieces[1..], tail, args, k + 1, mem);
      if own == None || rest == None then None else Some(pieces[0].literal + own.value + rest.value)
  }

  /** Text without a brace is literal up to the end of the format. */
  lemma {:induction false} TailIsLiteral(tail: string, i: nat)
    requires i <= |tail| && '{' !in tail
    ensures Scan(tail, i, STAGE_START, START_PARSE, 0) == Parsed(OK, NO_INFO, |tail| + 1, |tail|, true)
    decreases |tail| - i
  {
    if i < |tail| {
      TailIsLiteral(tail, i + 1);
    }
  }

  /** The first piece is read off the format, whatever follows the pieces. */
  lemma FirstIsRead(pieces: seq<Piece>, tail: string)
    requires pieces != [] && pieces[0].Ok()
    ensures var fmt, p := Written(pieces, tail), pieces[0];
            NextFormat(fmt) == Parsed(OK, Recovered(p.info), |p.Text()|, |p.literal|, false) &&
            |p.Text()| <= |fmt| && fmt[|p.Text()|..] == Written(pieces[1..], tail) && fmt[..|p.literal|] == p.literal &&
            Recovered(p.info).kind == p.info.kind != NoType &&
            (AllOk(pieces, tail) ==> AllOk(pieces[1..], tail))
  {
    hide Descriptor, NextFormat;
    var p := pieces[0];
    DescriptorRoundTrip(p.literal, p.info, p.name, p.dash, p.spaces, Written(pieces[1..], tail));
  }

  lemma LastText(tail: string)
    requires '{' !in tail
    ensures NextFormat(tail) == Parsed(OK, NO_INFO, |tail| + 1, |tail|, true) && tail[..|tail|] == tail
  {
    TailIsLiteral(tail, 0);
  }

  /** The rendering of a format is what its writer means. */
  lemma {:induction false} RenderedIsMeant(pieces: seq<Piece>, tail: string, args: seq<nat>, k: nat, mem: Memory)
    requires AllOk(pieces, tail)
    ensures Rendered(Written(pieces, tail), args, k, mem) == Meant(pieces, tail, args, k, mem)
    decreases |pieces|
  {
    hide NextFormat, ArgText, Piece.Text;
    if pieces == [] {
      LastText(tail);
      assert tail + "" + "" == tail;
    } else {
      FirstIsRead(pieces, tail);
      RenderedIsMeant(pieces[1..], tail, args, k + 1, mem);
    }
  }

  // ----- Arguments that suit a format -----

  /** A string in memory, a signed number with a negation, and a number without a wrapped count. */
  predicate Suits(info: Info, arg: nat, mem: Memory) {
    arg < U64 && !Wraps(info, arg) && (info.kind == Text ==> arg != 0) && Printable(info, arg, mem)
  }

  predicate AllSuit(pieces: seq<Piece>, args: seq<nat>, k: nat, mem: Memory) {
    k + |pieces| <= |args| && forall i :: 0 <= i < |pieces| ==> Suits(Recovered(pieces[i].info), args[k + i], mem)
  }

  lemma RestSuits(pieces: seq<Piece>, args: seq<nat>, k: nat, mem: Memory)
    requires AllSuit(pieces, args, k, mem) && pieces != []
    ensures k < |args| && Suits(Recovered(pieces[0].info), args[k], mem) && AllSuit(pieces[1..], args, k + 1, mem)
  {
    hide Suits;
    assert Suits(Recovered(pieces[0].info), args[k + 0], mem);
    forall i | 0 <= i < |pieces[1..]|
      ensures Suits(Recovered(pieces[1..][i].info), args[k + 1 + i], mem)
    {
      assert pieces[1..][i] == pieces[i + 1] && k + 1 + i == k + (i + 1);
    }
  }

  lemma SuitingHasText(info: Info, arg: nat, mem: Memory)
    requires Suits(info, arg, mem) && info.kind != NoType
    ensures ArgText(info, arg, mem).Some? && Printable(info, arg, mem) && !Wraps(info, arg)
  {
    hide Wraps;
  }

  lemma {:induction false} SuitingIsMeaningful(pieces: seq<Piece>, tail: string, args: seq<nat>, k: nat, mem: Memory)
    requires AllOk(pieces, tail) && AllSuit(pieces, args, k, mem)
    ensures Meant(pieces, tail, args, k, mem).Some?
    ensures AllPrintable(Written(pieces, tail), args, k, mem) && !WrapsSomewhere(Written(pieces, tail), args, k)
    decreases |pieces|
  {
    hide NextFormat, ArgText, Piece.Text, AllSuit, Suits, Printable, Wraps;
    if pieces == [] {
      LastTextSuits(tail, args, k, mem);
    } else {
      FirstIsRead(pieces, tail);
      RestSuits(pieces, args, k, mem);
      SuitingHasText(Recovered(pieces[0].info), args[k], mem);
      SuitingIsMeaningful(pieces[1..], tail, args, k + 1, mem);
    }
  }

  lemma LastTextSuits(tail: string, args: seq<nat>, k: nat, mem: Memory)
    requires AllOk([], tail)
    ensures AllPrintable(tail, args, k, mem) && !WrapsSomewhere(tail, args, k)
  {
    hide NextFormat;
    LastText(tail);
    NoTypeNeverWraps(NO_INFO, args, k);
  }

  /**
   From the writer's intention to the output: with arguments that suit it, a format whose meaning
   fits with room to spare is accepted and printed as meant, for any number of pieces and any alignment.
   */
  lemma PrintsAsMeant(pieces: seq<Piece>, tail: string, args: seq<nat>, room: nat, mem: Memory)
    requires AllOk(pieces, tail) && AllSuit(pieces, args, 0, mem)
    requires room < U64 && forall j :: 0 <= j < |args| ==> args[j] < U64
    ensures var t, fmt := Meant(pieces, tail, args, 0, mem), Written(pieces, tail);
            !WrapsSomewhere(fmt, args, 0) && t.Some? &&
            (|t.value| < room ==>
               ArgsOk(fmt, args, 0, room, mem) &&
               Print(fmt, args, 0, room, mem) == Outcome(OK, t.value, room - |t.value|))
  {
    hide ArgsOk, WrapsSomewhere, Print, Rendered, Meant, Written, AllOk, AllSuit, AllPrintable;
    SuitingIsMeaningful(pieces, tail, args, 0, mem);
    RenderedIsMeant(pieces, tail, args, 0, mem);
    if |Meant(pieces, tail, args, 0, mem).value| < room {
      FittingArgsOk(Written(pieces, tail), args, 0, room, mem);
      PrintRefinesRendering(Written(pieces, tail), args, 0, room, mem);
    }
  }

  // ----- Without a right fill the room does not matter -----

  /** No number is aligned left or centred. */
  predicate NoneRightFilled(pieces: seq<Piece>) {
    forall i :: 0 <= i < |pieces| && IsNumber(pieces[i].info.kind) ==>
      pieces[i].info.align != LeftAlign && pieces[i].info.align != CenterAlign
  }

  lemma SuitingIsOk(info: Info, arg: nat, mem: Memory, size: nat)
    requires Suits(info, arg, mem) && (IsNumber(info.kind) ==> info.align != LeftAlign && info.align != CenterAlign)
    ensures ArgOk(info, arg, mem, size)
  {
    hide Wraps;
    if IsNumber(info.kind) {
      var x := SignedValue(info.kind, arg);
      NoRightFill(info, Magnitude(x), BaseOf(info.kind), x >= 0, size);
    }
  }

  /** Such a format is accepted whether its meaning fits or not. */
  lemma {:induction false} AllAreOk(pieces: seq<Piece>, tail: string, args: seq<nat>, k: nat, room: nat, mem: Memory)
    requires AllOk(pieces, tail) && AllSuit(pieces, args, k, mem) && NoneRightFilled(pieces)
    ensures ArgsOk(Written(pieces, tail), args, k, room, mem)
    decreases |pieces|
  {
    hide NextFormat, ArgText, Piece.Text, ArgOk, GenStatus, GenWritten, AllSuit, Suits;
    if pieces == [] {
      LastTextOk(tail, args, k, room, mem);
    } else {
      FirstIsRead(pieces, tail);
      RestSuits(pieces, args, k, mem);
      var p, room1 := pieces[0], if |pieces[0].literal| <= room then room - |pieces[0].literal| else 0;
      var info := Recovered(p.info);
      SuitingIsOk(info, args[k], mem, room1);
      var n := |GenWritten(info, args[k], mem, room1)|;
      AllAreOk(pieces[1..], tail, args, k + 1, if n <= room1 then room1 - n else 0, mem);
    }
  }

  lemma LastTextOk(tail: string, args: seq<nat>, k: nat, room: nat, mem: Memory)
    requires AllOk([], tail)
    ensures ArgsOk(tail, args, k, room, mem)
  {
    hide NextFormat;
    LastText(tail);
  }
}
