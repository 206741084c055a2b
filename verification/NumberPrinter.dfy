/**
 The in-place number printer of src/string_util.c.  itoa writes a number backwards into
 the buffer, each piece as far as the room allows, and reverses what it wrote.
 */
module NumberPrinter {
  import opened Util
  import opened Digits
  import opened Layout
  import opened Buffers

  /** The number of characters that `padding` writes: without room its counter wraps around. */
  function PaddingWrites(size: nat, len: nat): nat {
    if size == 0 then len else Min(size, len)
  }

  /** padding */
  method Padding(buf: array<char>, at: nat, size: nat, fillChar: char, len: nat) returns (count: nat)
    requires size < U64 && len < U64 && at + PaddingWrites(size, len) <= buf.Length
    modifies buf
    ensures count == PaddingWrites(size, len)
    ensures Wrote(old(buf[..]), buf[..], at, Repeat(fillChar, count))
  {
    count := 0;
    var room, left := size, len;
    while left > 0
      invariant 0 <= left && count + left == len && room < U64
      invariant count <= PaddingWrites(size, len)
      invariant room == (if size == 0 && count > 0 then U64 - count else size - count)
      invariant size > 0 ==> room > 0
      invariant forall k :: at <= k < at + count ==> buf[k] == fillChar
      invariant forall k :: 0 <= k < at || at + count <= k < buf.Length ==> buf[k] == old(buf[k])
    {
      buf[at + count] := fillChar;
      count := count + 1;
      left := left - 1;
      room := if room == 0 then U64 - 1 else room - 1;
      if room == 0 {
        break;
      }
    }
    WroteByElements(old(buf[..]), buf[..], at, Repeat(fillChar, count));
  }

  // ----- The pieces of a number, in the order in which itoa writes them -----

  /** The digit loop: it stops early when the buffer is full. */
  method EmitDigits(buf: array<char>, at: nat, size: nat, val: nat, base: nat) returns (count: nat)
    requires IsBase(base) && 0 < size && at + size <= buf.Length
    modifies buf
    ensures count == |Cut(Emitted(val, base), size)|
    ensures Wrote(old(buf[..]), buf[..], at, Cut(Emitted(val, base), size))
  {
    hide Emitted;
    ghost var all := Emitted(val, base);
    count := 0;
    var v: nat := val;
    while true
      invariant count < size && count < |all|
      invariant all[count..] == Emitted(v, base)
      invariant forall k :: 0 <= k < count ==> buf[at + k] == all[k]
      invariant forall k :: 0 <= k < at || at + count <= k < buf.Length ==> buf[k] == old(buf[k])
      decreases |all| - count
    {
      DivMod(v, base);
      EmittedStep(v, base);
      assert all[count] == all[count..][0] && all[count + 1..] == all[count..][1..];
      buf[at + count] := DigitChar(v % base);
      count := count + 1;
      if count == size {
        break;
      }
      v := v / base;
      if v == 0 {
        break;
      }
    }
    WroteByElements(old(buf[..]), buf[..], at, all[..count]);
  }

  lemma EmittedStep(v: nat, base: nat)
    requires IsBase(base)
    ensures Emitted(v, base)[0] == DigitChar(v % base)
    ensures Emitted(v, base)[1..] == if v / base == 0 then [] else Emitted(v / base, base)
  {
  }

  /** itoa_insert_base: the prefix, backwards. */
  method InsertBase(buf: array<char>, at: nat, size: nat, base: nat, ghost info: Info) returns (count: nat)
    requires IsBase(base) && 0 < size && at + size <= buf.Length && info.alternate
    modifies buf
    ensures count == |Cut(Reverse(PrefixText(info, base)), size)|
    ensures Wrote(old(buf[..]), buf[..], at, Cut(Reverse(PrefixText(info, base)), size))
    ensures count == if base == 10 then 0 else Min(size, 2)
    ensures count >= 1 ==> buf[at] == if base == 2 then 'b' else if base == 8 then 'o' else 'x'
    ensures count == 2 ==> buf[at + 1] == '0'
  {
    ghost var text := Reverse(PrefixText(info, base));
    count := 0;
    if base == 2 {
      buf[at] := 'b';
      count := 1;
    } else if base == 8 {
      buf[at] := 'o';
      count := 1;
    } else if base == 16 {
      buf[at] := 'x';
      count := 1;
    }
    if count < size && base != 10 {
      buf[at + count] := '0';
      count := count + 1;
    }
    WroteByElements(old(buf[..]), buf[..], at, text[..count]);
  }

  /** itoa_insert_sign */
  method InsertSign(buf: array<char>, at: nat, info: Info, positive: bool) returns (count: nat)
    requires at < buf.Length
    modifies buf
    ensures count == |SignText(info, positive)|
    ensures Wrote(old(buf[..]), buf[..], at, SignText(info, positive))
    ensures count == if positive && info.sign == NegativeOnly then 0 else 1
    ensures count == 1 ==> buf[at] == if !positive then '-' else if info.sign == BothSigns then '+' else ' '
  {
    count := 0;
    match info.sign {
      case BothSigns =>
        buf[at] := if positive then '+' else '-';
        count := 1;
      case LeadingSpace =>
        buf[at] := if positive then ' ' else '-';
        count := 1;
      case NegativeOnly =>
        if !positive {
          buf[at] := '-';
          count := 1;
        }
    }
    WroteByElements(old(buf[..]), buf[..], at, SignText(info, positive));
  }

  /** The padding counts: the default, then zero padding, then an explicit alignment. */
  method ChooseFill(info: Info, count: nat) returns (f: Fill)
    ensures f == Place(info, count)
  {
    var c := ' ';
    var left, afterSign, afterPrefix, right := count, 0, 0, 0;
    if info.zeroPadding {
      afterPrefix, afterSign, left, right := count, 0, 0, 0;
      c := '0';
    }
    if info.align != DefaultAlign && info.fill != '\0' {
      c := info.fill;
    }
    match info.align {
      case AfterSignAlign => afterPrefix, afterSign, left, right := 0, count, 0, 0;
      case LeftAlign => afterPrefix, afterSign, left, right := 0, 0, 0, count;
      case RightAlign => afterPrefix, afterSign, left, right := 0, 0, count, 0;
      case CenterAlign =>
        afterPrefix, afterSign := 0, 0;
        left := count / 2;
        right := count - left;
      case DefaultAlign =>
    }
    f := Fill(c, left, afterSign, afterPrefix, right);
  }

  /** The size of the padding, with the subtractions in 64-bit arithmetic. */
  method CountPadding(info: Info, contentCnt: nat, base: nat, positive: bool) returns (count: nat)
    requires contentCnt < U64 && info.minWidth < U64
    ensures count == PaddingCount(info, contentCnt, base, positive) < U64
  {
    count := Max(info.minWidth, contentCnt) - contentCnt;
    if count > 0 && info.alternate && base != 10 {
      count := (count - 2 + U64) % U64;
    }
    if count > 0 && (info.sign == BothSigns || info.sign == LeadingSpace || (info.sign == NegativeOnly && !positive)) {
      count := count - 1;
    }
  }

  /** The reversal at the end of itoa, in place. */
  method ReverseInPlace(buf: array<char>, from: nat, to: nat)
    requires from <= to <= buf.Length
    modifies buf
    ensures Wrote(old(buf[..]), buf[..], from, Reverse(old(buf[from..to])))
  {
    ghost var before := buf[..];
    var low, high := from, to;
    while low + 1 < high
      invariant from <= low <= high <= to && low - from == to - high
      invariant forall k :: from <= k < low ==> buf[k] == before[from + to - 1 - k]
      invariant forall k :: high <= k < to ==> buf[k] == before[from + to - 1 - k]
      invariant forall k :: 0 <= k < from || low <= k < high || to <= k < buf.Length ==> buf[k] == before[k]
    {
      high := high - 1;
      buf[low], buf[high] := buf[high], buf[low];
      low := low + 1;
    }
    IsReversed(before, buf[..], from, to);
  }

  lemma IsReversed(before: string, after: string, from: nat, to: nat)
    requires from <= to <= |before| == |after|
    requires forall k :: from <= k < to ==> after[k] == before[from + to - 1 - k]
    requires forall k :: 0 <= k < from || to <= k < |before| ==> after[k] == before[k]
    ensures Wrote(before, after, from, Reverse(before[from..to]))
  {
    WroteByElements(before, after, from, Reverse(before[from..to]));
  }

  // ----- itoa -----

  /** The six pieces that itoa writes one after the other before it reverses the buffer. */
  datatype Parts = Parts(fill: Fill, sign: string, prefix: string, emitted: string) {
    function Piece(k: nat): string
      requires k < 6
    {
      match k
      case 0 => emitted
      case 1 => Repeat(fill.c, fill.afterPrefix)
      case 2 => Reverse(prefix)
      case 3 => Repeat(fill.c, fill.afterSign)
      case 4 => sign
      case 5 => Repeat(fill.c, fill.left)
    }

    /** The first k pieces. */
    function Before(k: nat): string
      requires k <= 6
    {
      if k == 0 then "" else Before(k - 1) + Piece(k - 1)
    }

    function Emission(): string { Before(6) }

    lemma {:induction false} BeforeIsPrefix(k: nat, m: nat)
      requires k <= m <= 6
      ensures Before(k) <= Before(m)
      decreases m
    {
      if k < m {
        BeforeIsPrefix(k, m - 1);
      }
    }
  }

  function ItoaParts(info: Info, val: nat, base: nat, positive: bool): Parts
    requires IsBase(base)
  {
    var emitted := Emitted(val, base);
    Parts(Place(info, PaddingCount(info, |emitted|, base, positive)), SignText(info, positive),
          PrefixText(info, base), emitted)
  }

  /** The right fill; it is still zero when the digits alone fill the buffer. */
  function RightFill(p: Parts, size: nat): nat {
    if |p.emitted| >= size then 0 else p.fill.right
  }

  /** The characters that a call of itoa leaves in memory, from the start of the buffer on. */
  function ItoaWritten(p: Parts, size: nat): string {
    if size == 0 then ""
    else
      var body := Reverse(Cut(p.Emission(), size));
      body + Repeat(p.fill.c, PaddingWrites(size - |body|, RightFill(p, size)))
  }

  /** Truncation is reported when anything up to the sign leaves no room for one more character. */
  function ItoaStatus(p: Parts, size: nat): Status {
    if |p.Before(5)| >= size then Truncated else OK
  }

  /**
   The next piece was written as far as the room goes: either the buffer is full and holds the
   beginning of the whole emission, or the piece is complete.
   */
  lemma NextPiece(p: Parts, k: nat, size: nat, at: nat, a: string, b: string, c: string, count: nat)
    requires k < 6 && |p.Before(k)| < size && Wrote(a, b, at, p.Before(k))
    requires Wrote(b, c, at + |p.Before(k)|, Cut(p.Piece(k), size - |p.Before(k)|))
    requires count == |p.Before(k)| + |Cut(p.Piece(k), size - |p.Before(k)|)|
    ensures count <= size && (count == size <==> |p.Before(k + 1)| >= size)
    ensures count == size ==> Wrote(a, c, at, Cut(p.Emission(), size)) && |Cut(p.Emission(), size)| == size
    ensures count < size ==> Wrote(a, c, at, p.Before(k + 1)) && count == |p.Before(k + 1)|
  {
    hide Wrote, Cut, Parts.Before, Parts.Piece;
    var done, piece := p.Before(k), p.Piece(k);
    BeforeNext(p, k);
    p.BeforeIsPrefix(k + 1, 6);
    WroteNext(p.Emission(), done, piece, size, at, a, b, c);
  }

  lemma BeforeNext(p: Parts, k: nat)
    requires k < 6
    ensures p.Before(k + 1) == p.Before(k) + p.Piece(k) && |p.Before(k + 1)| == |p.Before(k)| + |p.Piece(k)|
  {
    hide Parts.Piece;
  }

  lemma StatusAfter(p: Parts, k: nat, size: nat)
    requires k <= 5
    ensures |p.Before(k)| >= size ==> ItoaStatus(p, size) == Truncated
    ensures k == 5 && |p.Before(5)| < size ==> ItoaStatus(p, size) == OK
  {
    p.BeforeIsPrefix(k, 5);
  }

  lemma NoPrefix(info: Info, base: nat)
    requires !info.alternate
    ensures forall room: nat :: Cut(Reverse(PrefixText(info, base)), room) == ""
  {
  }

  lemma SignIsShort(info: Info, positive: bool, room: nat)
    requires 0 < room
    ensures Cut(SignText(info, positive), room) == SignText(info, positive)
  {
  }

  /** The buffer holds the first k pieces, or is full with the beginning of all of them. */
  ghost predicate Emitting(a: string, b: string, at: nat, p: Parts, k: nat, size: nat, count: nat)
    requires k <= 6
  {
    count <= size && (count == size <==> |p.Before(k)| >= size) &&
    (count == size ==> Wrote(a, b, at, Cut(p.Emission(), size)) && |Cut(p.Emission(), size)| == size) &&
    (count < size ==> Wrote(a, b, at, p.Before(k)) && count == |p.Before(k)|)
  }

  method EmitFill(buf: array<char>, at: nat, size: nat, ghost a: string, ghost p: Parts, ghost k: nat,
                  count: nat, fillChar: char, len: nat) returns (count': nat)
    requires k < 6 && count < size < U64 && len < U64 && at + size <= buf.Length
    requires Emitting(a, buf[..], at, p, k, size, count) && p.Piece(k) == Repeat(fillChar, len)
    modifies buf
    ensures Emitting(a, buf[..], at, p, k + 1, size, count')
    ensures count' <= size && (count' == size <==> |p.Before(k + 1)| >= size)
  {
    hide Wrote, Cut, Repeat, Parts.Piece;
    ghost var b := buf[..];
    CutRepeat(fillChar, len, size - count);
    var written := Padding(buf, at + count, size - count, fillChar, len);
    CutLength(p.Piece(k), size - count);
    RepeatLength(fillChar, len);
    count' := count + written;
    NextPiece(p, k, size, at, a, b, buf[..], count');
  }

  method EmitPrefix(buf: array<char>, at: nat, size: nat, ghost a: string, ghost p: Parts,
                    count: nat, base: nat, info: Info) returns (count': nat)
    requires count < size < U64 && at + size <= buf.Length && IsBase(base)
    requires Emitting(a, buf[..], at, p, 2, size, count) && p.prefix == PrefixText(info, base)
    modifies buf
    ensures Emitting(a, buf[..], at, p, 3, size, count')
    ensures count' <= size && (count' == size <==> |p.Before(3)| >= size)
  {
    hide Wrote, Cut, PrefixText, Reverse;
    ghost var b := buf[..];
    var written := 0;
    if info.alternate {
      written := InsertBase(buf, at + count, size - count, base, info);
    } else {
      NoPrefix(info, base);
      WroteNothing(b, at + count);
    }
    count' := count + written;
    NextPiece(p, 2, size, at, a, b, buf[..], count');
  }

  method EmitSign(buf: array<char>, at: nat, size: nat, ghost a: string, ghost p: Parts,
                  count: nat, info: Info, positive: bool) returns (count': nat)
    requires count < size < U64 && at + size <= buf.Length
    requires Emitting(a, buf[..], at, p, 4, size, count) && p.sign == SignText(info, positive)
    modifies buf
    ensures Emitting(a, buf[..], at, p, 5, size, count')
    ensures count' <= size && (count' == size <==> |p.Before(5)| >= size)
  {
    hide Wrote, Cut, SignText;
    ghost var b := buf[..];
    SignIsShort(info, positive, size - count);
    var written := InsertSign(buf, at + count, info, positive);
    count' := count + written;
    NextPiece(p, 4, size, at, a, b, buf[..], count');
  }

  /** Everything itoa does before the reversal. */
  method EmitAll(buf: array<char>, at: nat, size: nat, val: nat, base: nat, info: Info, positive: bool)
    returns (ret: Status, count: nat, right: nat, fillChar: char)
    requires IsBase(base) && 0 < size < U64 && val < U64 && info.minWidth < U64 && at + size <= buf.Length
    modifies buf
    ensures var p := ItoaParts(info, val, base, positive);
            Emitting(old(buf[..]), buf[..], at, p, 6, size, count) &&
            ret == ItoaStatus(p, size) && right == RightFill(p, size) < U64 && (right > 0 ==> fillChar == p.fill.c)
  {
    hide Emitted, Place, PaddingCount, SignText, PrefixText, Wrote, ItoaStatus, Cut, Repeat, Reverse, Parts.Before,
         Emitting;
    ghost var a := buf[..];
    ghost var p := ItoaParts(info, val, base, positive);
    ret, right, fillChar := Truncated, 0, ' ';

    count := EmitDigits(buf, at, size, val, base);
    DigitsEmitted(p, size, at, a, buf[..], count);
    if count == size {
      StatusAfter(p, 1, size);
      FullStaysFull(p, size, at, a, buf[..], 1);
      return;
    }

    var paddingCnt := CountPadding(info, count, base, positive);
    var f := ChooseFill(info, paddingCnt);
    right, fillChar := f.right, f.c;

    count := EmitFill(buf, at, size, a, p, 1, count, f.c, f.afterPrefix);
    if count == size {
      StatusAfter(p, 2, size);
      FullStaysFull(p, size, at, a, buf[..], 2);
      return;
    }
    count := EmitPrefix(buf, at, size, a, p, count, base, info);
    if count == size {
      StatusAfter(p, 3, size);
      FullStaysFull(p, size, at, a, buf[..], 3);
      return;
    }
    count := EmitFill(buf, at, size, a, p, 3, count, f.c, f.afterSign);
    if count == size {
      StatusAfter(p, 4, size);
      FullStaysFull(p, size, at, a, buf[..], 4);
      return;
    }
    count := EmitSign(buf, at, size, a, p, count, info, positive);
    StatusAfter(p, 5, size);
    if count == size {
      FullStaysFull(p, size, at, a, buf[..], 5);
      return;
    }
    ret := OK;
    count := EmitFill(buf, at, size, a, p, 5, count, f.c, f.left);
  }

  lemma DigitsEmitted(p: Parts, size: nat, at: nat, a: string, b: string, count: nat)
    requires 0 < size && at + size <= |a|
    requires Wrote(a, b, at, Cut(p.emitted, size)) && count == |Cut(p.emitted, size)|
    ensures Emitting(a, b, at, p, 1, size, count)
    ensures count <= size && (count == size <==> |p.emitted| >= size) && (count == size <==> |p.Before(1)| >= size)
    ensures count < size ==> count == |p.emitted|
  {
    hide Wrote;
    WroteNothing(a, at);
    NextPiece(p, 0, size, at, a, a, b, count);
    assert p.Before(1) == p.emitted;
  }

  lemma FullStaysFull(p: Parts, size: nat, at: nat, a: string, b: string, k: nat)
    requires k <= 6 && Emitting(a, b, at, p, k, size, size)
    ensures Emitting(a, b, at, p, 6, size, size)
  {
    hide Wrote;
    p.BeforeIsPrefix(k, 6);
  }

  lemma WrittenLength(p: Parts, size: nat)
    requires 0 < size
    ensures var body := |Cut(p.Emission(), size)|;
            |ItoaWritten(p, size)| == body + PaddingWrites(size - body, RightFill(p, size))
  {
  }

  /** From the label reverse_out on: the reversal in place, then the right fill. */
  method Finish(buf: array<char>, at: nat, size: nat, ghost a: string, ghost p: Parts,
                count: nat, right: nat, fillChar: char) returns (remaining: nat)
    requires 0 < size < U64 && right < U64 && at + |ItoaWritten(p, size)| <= buf.Length
    requires Emitting(a, buf[..], at, p, 6, size, count)
    requires right == RightFill(p, size) && (right > 0 ==> fillChar == p.fill.c)
    modifies buf
    ensures Wrote(a, buf[..], at, ItoaWritten(p, size))
    ensures remaining == (size - |ItoaWritten(p, size)|) % U64
  {
    hide Wrote, Reverse, Cut, Repeat, Parts.Emission, Emitting, RightFill, ItoaWritten, PaddingWrites;
    EmittedBody(p, size, at, a, buf[..], count);
    WrittenLength(p, size);
    ghost var body := Cut(p.Emission(), size);
    ghost var b := buf[..];
    ReverseInPlace(buf, at, at + count);
    WroteOver(a, b, buf[..], at, body, Reverse(body));
    b := buf[..];
    var written := Padding(buf, at + count, size - count, fillChar, right);
    FillBehind(p, size, at, a, b, buf[..], fillChar, written);
    remaining := (size - count - written) % U64;
  }

  /** The right fill behind the reversed body completes what itoa writes. */
  lemma FillBehind(p: Parts, size: nat, at: nat, a: string, b: string, c: string, fillChar: char, written: nat)
    requires 0 < size && Wrote(a, b, at, Reverse(Cut(p.Emission(), size)))
    requires Wrote(b, c, at + |Cut(p.Emission(), size)|, Repeat(fillChar, written))
    requires written == PaddingWrites(size - |Cut(p.Emission(), size)|, RightFill(p, size))
    requires RightFill(p, size) > 0 ==> fillChar == p.fill.c
    ensures Wrote(a, c, at, ItoaWritten(p, size))
  {
    hide Wrote, Reverse, Cut, Repeat, Parts.Emission, RightFill;
    if RightFill(p, size) == 0 {
      EmptyRepeat(fillChar, p.fill.c);
    }
    WroteThen(a, b, c, at, Reverse(Cut(p.Emission(), size)), Repeat(fillChar, written));
  }

  /** itoa.  Its only demand is that the memory behind the buffer holds whatever it writes. */
  method Itoa(buf: array<char>, at: nat, size: nat, val: nat, base: nat, info: Info, positive: bool)
    returns (ret: Status, remaining: nat)
    requires IsBase(base) && size < U64 && val < U64 && info.minWidth < U64 && at + size <= buf.Length
    requires at + |ItoaWritten(ItoaParts(info, val, base, positive), size)| <= buf.Length
    modifies buf
    ensures var p := ItoaParts(info, val, base, positive);
            Wrote(old(buf[..]), buf[..], at, ItoaWritten(p, size)) && ret == ItoaStatus(p, size) &&
            remaining == (size - |ItoaWritten(p, size)|) % U64
  {
    hide Emitted, ItoaParts, Wrote, Emitting, ItoaStatus, RightFill;
    ghost var p := ItoaParts(info, val, base, positive);
    remaining := size;
    if remaining == 0 {
      ret := Truncated;
      NoRoom(p);
      WroteNothing(buf[..], at);
      return;
    }
    ghost var a := buf[..];
    var count, right, fillChar;
    ret, count, right, fillChar := EmitAll(buf, at, size, val, base, info, positive);
    remaining := Finish(buf, at, size, a, p, count, right, fillChar);
  }

  lemma NoRoom(p: Parts)
    ensures ItoaStatus(p, 0) == Truncated
  {
  }

  lemma EmptyRepeat(c: char, d: char)
    ensures Repeat(c, 0) == Repeat(d, 0) == ""
  {
  }

  lemma EmittedBody(p: Parts, size: nat, at: nat, a: string, b: string, count: nat)
    requires Emitting(a, b, at, p, 6, size, count)
    ensures Wrote(a, b, at, Cut(p.Emission(), size)) && count == |Cut(p.Emission(), size)|
    ensures at + count <= |b| && b[at..at + count] == Cut(p.Emission(), size)
    ensures count <= size
  {
    CutLength(p.Emission(), size);
  }

  // ----- What itoa promises -----

  lemma ReversedPrefixIsSuffix(s: string, n: nat)
    requires n <= |s|
    ensures Reverse(s[..n]) == Reverse(s)[|s| - n..]
  {
    assert s == s[..n] + s[n..];
    ReverseConcat(s[..n], s[n..]);
    hide Reverse;
    assert Reverse(s) == Reverse(s[n..]) + Reverse(s[..n]);
  }

  /**
   Without a right fill, a number that does not fit leaves its last characters: the digits and whatever
   of its prefix, sign and fill there is room for in front of them.
   */
  lemma CutKeepsTheEnd(info: Info, val: nat, base: nat, positive: bool, size: nat)
    requires IsBase(base)
    ensures var p, text := ItoaParts(info, val, base, positive), ItoaText(info, val, base, positive);
            p.fill.right == 0 && size <= |text| ==> ItoaWritten(p, size) == text[|text| - size..]
  {
    hide Emitted, Place, PaddingCount, PrefixText, Reverse, Assemble, Parts.Emission, Repeat;
    var p, text := ItoaParts(info, val, base, positive), ItoaText(info, val, base, positive);
    EmissionReversed(p);
    assert text == Assemble(p.fill, p.sign, p.prefix, Reverse(p.emitted));
    if p.fill.right == 0 && size <= |text| {
      NoFillIsNothing(p.fill.c);
      assert text == Reverse(p.Emission());
      ReversedPrefixIsSuffix(p.Emission(), size);
      assert Cut(p.Emission(), size) == p.Emission()[..size];
      assert PaddingWrites(0, 0) == 0;
    }
  }

  lemma NoFillIsNothing(c: char)
    ensures Repeat(c, 0) == "" && forall s: string :: s + "" == s
  {
  }

  lemma ReverseConcat(s: string, t: string)
    ensures Reverse(s + t) == Reverse(t) + Reverse(s)
  {
  }

  lemma ReverseTwice(s: string)
    ensures Reverse(Reverse(s)) == s
  {
  }

  lemma ReverseRepeat(c: char, n: nat)
    ensures Reverse(Repeat(c, n)) == Repeat(c, n)
  {
  }

  lemma ReverseShort(s: string)
    requires |s| <= 1
    ensures Reverse(s) == s
  {
  }

  /** Read backwards, the emission is the laid-out number without its right fill. */
  lemma EmissionReversed(p: Parts)
    requires |p.sign| <= 1
    ensures Reverse(p.Emission()) + Repeat(p.fill.c, p.fill.right)
         == Assemble(p.fill, p.sign, p.prefix, Reverse(p.emitted))
    ensures |p.Emission()| == |p.Before(5)| + p.fill.left
  {
    hide Reverse, Repeat;
    var f := p.fill;
    assert p.Before(1) == p.emitted;
    ReverseConcat(p.Before(1), p.Piece(1));
    ReverseConcat(p.Before(2), p.Piece(2));
    ReverseConcat(p.Before(3), p.Piece(3));
    ReverseConcat(p.Before(4), p.Piece(4));
    ReverseConcat(p.Before(5), p.Piece(5));
    ReverseRepeat(f.c, f.afterPrefix);
    ReverseTwice(p.prefix);
    ReverseRepeat(f.c, f.afterSign);
    ReverseShort(p.sign);
    ReverseRepeat(f.c, f.left);
    RepeatLength(f.c, f.left);
    Reassociate(Repeat(f.c, f.left), p.sign, Repeat(f.c, f.afterSign), p.prefix, Repeat(f.c, f.afterPrefix),
                Reverse(p.emitted), Repeat(f.c, f.right));
  }

  lemma Reassociate(a: string, b: string, c: string, d: string, e: string, f: string, g: string)
    ensures a + (b + (c + (d + (e + f)))) + g == a + b + c + d + e + f + g
  {
  }

  /**
   With room for one character more than the text, itoa reports success and leaves exactly
   the laid-out number; and it never reports success otherwise without filling the buffer.
   */
  lemma ItoaIsComplete(info: Info, val: nat, base: nat, positive: bool, size: nat)
    requires IsBase(base)
    ensures var p := ItoaParts(info, val, base, positive);
            var text := ItoaText(info, val, base, positive);
            (|text| < size <==> ItoaStatus(p, size) == OK && |ItoaWritten(p, size)| < size) &&
            (|text| < size ==> ItoaWritten(p, size) == text)
  {
    hide Emitted, Place, PaddingCount, PrefixText, Reverse, Assemble;
    var p := ItoaParts(info, val, base, positive);
    var text := ItoaText(info, val, base, positive);
    EmissionReversed(p);
    assert text == Assemble(p.fill, p.sign, p.prefix, Reverse(p.emitted));
    WrittenIff(p, text, size);
  }

  lemma WrittenIff(p: Parts, text: string, size: nat)
    requires text == Reverse(p.Emission()) + Repeat(p.fill.c, p.fill.right)
    requires |p.Emission()| == |p.Before(5)| + p.fill.left
    ensures |text| < size <==> ItoaStatus(p, size) == OK && |ItoaWritten(p, size)| < size
    ensures |text| < size ==> ItoaWritten(p, size) == text
  {
    hide Reverse, Repeat, Parts.Before;
    p.BeforeIsPrefix(1, 6);
    FirstPiece(p);
    RepeatLength(p.fill.c, p.fill.right);
    if size > 0 {
      WrittenLength(p, size);
      CutLength(p.Emission(), size);
    }
  }

  lemma FirstPiece(p: Parts)
    ensures p.Before(1) == p.emitted && p.Emission() == p.Before(6)
  {
  }

  /** The right fill is wanted when the rest of the text has already used up the buffer. */
  predicate RightFillOverruns(p: Parts, size: nat) {
    |p.emitted| < size <= |p.Emission()| && p.fill.right > 0
  }

  /** itoa writes inside its buffer if and only if a right fill always finds some room. */
  lemma StaysInsideIff(p: Parts, size: nat)
    ensures |ItoaWritten(p, size)| <= size <==> !RightFillOverruns(p, size)
  {
    hide Reverse, Repeat, Parts.Emission;
    if size > 0 {
      WrittenLength(p, size);
      CutLength(p.Emission(), size);
    }
  }

  /** A number that is not aligned left or centred has no right fill at all. */
  lemma NoRightFill(info: Info, val: nat, base: nat, positive: bool, size: nat)
    requires IsBase(base) && info.align != LeftAlign && info.align != CenterAlign
    ensures !RightFillOverruns(ItoaParts(info, val, base, positive), size)
  {
  }

  /**
   A success report does not mean that the number is complete: the last padding is not checked.
   On success inside the buffer, the number is complete if and only if its text fits.
   */
  lemma CompleteIff(info: Info, val: nat, base: nat, positive: bool, size: nat)
    requires IsBase(base)
    requires ItoaStatus(ItoaParts(info, val, base, positive), size) == OK
    requires !RightFillOverruns(ItoaParts(info, val, base, positive), size)
    ensures ItoaWritten(ItoaParts(info, val, base, positive), size) == ItoaText(info, val, base, positive) <==>
            |ItoaText(info, val, base, positive)| <= size
  {
    hide Emitted, Place, PaddingCount, PrefixText, Reverse, Assemble;
    var p := ItoaParts(info, val, base, positive);
    EmissionReversed(p);
    assert ItoaText(info, val, base, positive) == Assemble(p.fill, p.sign, p.prefix, Reverse(p.emitted));
    StaysInsideIff(p, size);
    WholeIff(p, ItoaText(info, val, base, positive), size);
  }

  lemma WholeIff(p: Parts, text: string, size: nat)
    requires text == Reverse(p.Emission()) + Repeat(p.fill.c, p.fill.right)
    requires ItoaStatus(p, size) == OK && |ItoaWritten(p, size)| <= size
    ensures ItoaWritten(p, size) == text <==> |text| <= size
  {
    hide Reverse, Repeat, Parts.Before;
    p.BeforeIsPrefix(1, 6);
    p.BeforeIsPrefix(5, 6);
    FirstPiece(p);
    RepeatLength(p.fill.c, p.fill.right);
    WrittenLength(p, size);
    CutLength(p.Emission(), size);
  }

  /** A left-aligned negative number in a buffer that its digits and sign just fill: the fill runs on behind it. */
  lemma RightFillOverrunsExample()
    ensures var info := NO_INFO.(kind := Decimal, align := LeftAlign, minWidth := 5);
            |ItoaWritten(ItoaParts(info, 7, 10, false), 2)| == 5
  {
    hide Repeat, Parts.Before, Reverse;
    var info := NO_INFO.(kind := Decimal, align := LeftAlign, minWidth := 5);
    var p := ItoaParts(info, 7, 10, false);
    NumeralStep(7, 10);
    assert Emitted(7, 10) == "7";
    assert p.fill == Fill(' ', 0, 0, 0, 3);
    EmissionReversed(p);
    RepeatLength(' ', 3);
    AssembledLength(p.fill, p.sign, p.prefix, Reverse(p.emitted));
    WrittenLength(p, 2);
    CutLength(p.Emission(), 2);
  }
}
