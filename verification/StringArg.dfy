/**
 String arguments: stringtoa of src/string_util.c.
 */
module StringArg {
  import opened Util
  import opened Layout
  import opened Buffers

  /** What stringtoa leaves in the buffer: as much of the text as fits. */
  function StringWritten(info: Info, s: string, size: nat): string {
    Cut(StringText(info, s), size)
  }

  /** stringtoa reports truncation unless there is room for one more character than the text. */
  function StringStatus(info: Info, s: string, size: nat): Status {
    if |StringText(info, s)| >= size then Truncated else OK
  }

  /** The text so far is written as far as it goes, and `room` characters are left. */
  ghost predicate WroteSoFar(a: string, b: string, at: nat, text: string, size: nat, room: nat) {
    Wrote(a, b, at, Cut(text, size)) && room == size - |Cut(text, size)| && |b| == |a|
  }

  lemma SoFarThen(a: string, b: string, c: string, at: nat, done: string, piece: string, size: nat, room: nat)
    requires WroteSoFar(a, b, at, done, size, room) && 0 < room
    requires Wrote(b, c, at + size - room, Cut(piece, room))
    ensures WroteSoFar(a, c, at, done + piece, size, room - |Cut(piece, room)|)
  {
    hide Wrote, Cut;
    CutLength(done, size);
    CutLength(piece, room);
    CutLength(done + piece, size);
    WroteNext(done + piece, done, piece, size, at, a, b, c);
    CutLength(done + piece, |done + piece|);
    WroteLength(a, c, at, Cut(done + piece, size));
  }

  lemma WroteLength(a: string, b: string, at: nat, text: string)
    requires Wrote(a, b, at, text)
    ensures |a| == |b|
  {
  }

  /** A full buffer holds the beginning of whatever text was to follow. */
  lemma SoFarIsAll(a: string, b: string, at: nat, done: string, text: string, size: nat, room: nat)
    requires WroteSoFar(a, b, at, done, size, room) && done <= text
    ensures room == 0 || done == text ==> WroteSoFar(a, b, at, text, size, room)
    ensures room == 0 ==> |text| >= size
    ensures room > 0 ==> |done| < size
  {
    hide Wrote;
    if |done| >= size {
      assert Cut(done, size) == Cut(text, size);
    }
  }

  method PutFill(buf: array<char>, at: nat, size: nat, room: nat, c: char, n: nat, ghost a: string, ghost done: string)
    returns (rest: nat)
    requires at + size <= buf.Length && 0 < room <= size && WroteSoFar(a, buf[..], at, done, size, room)
    modifies buf
    ensures rest <= size && WroteSoFar(a, buf[..], at, done + Repeat(c, n), size, rest)
  {
    hide WroteSoFar, Wrote, Cut, Repeat;
    ghost var b := buf[..];
    var p := Min(n, room);
    CutRepeat(c, n, room);
    RepeatLength(c, p);
    Memset(buf, at + size - room, c, p);
    SoFarThen(a, b, buf[..], at, done, Repeat(c, n), size, room);
    rest := room - p;
  }

  method PutText(buf: array<char>, at: nat, size: nat, room: nat, s: string, ghost a: string, ghost done: string)
    returns (rest: nat)
    requires at + size <= buf.Length && 0 < room <= size && WroteSoFar(a, buf[..], at, done, size, room)
    modifies buf
    ensures rest <= size && WroteSoFar(a, buf[..], at, done + s, size, rest)
  {
    hide WroteSoFar, Wrote, Cut;
    ghost var b := buf[..];
    CutLength(s, room);
    var p := Memscpy(buf, at + size - room, room, s);
    SoFarThen(a, b, buf[..], at, done, s, size, room);
    rest := room - p;
  }

  lemma NothingYet(a: string, at: nat, size: nat)
    requires at + size <= |a|
    ensures WroteSoFar(a, a, at, "", size, size)
  {
  }

  /** The three writes of stringtoa, each followed by the check that some room is left. */
  method WriteFilled(buf: array<char>, at: nat, size: nat, c: char, left: nat, cut: string, right: nat)
    returns (ret: Status, remaining: nat)
    requires at + size <= buf.Length
    modifies buf
    ensures var text := Repeat(c, left) + cut + Repeat(c, right);
            WroteSoFar(old(buf[..]), buf[..], at, text, size, remaining) &&
            ret == if |text| >= size then Truncated else OK
  {
    hide WroteSoFar, Repeat;
    ghost var a, fill := buf[..], Repeat(c, left);
    ghost var text := fill + cut + Repeat(c, right);
    remaining := size;
    NothingYet(a, at, size);
    SoFarIsAll(a, a, at, "", text, size, size);
    if remaining == 0 {
      return Truncated, 0;
    }
    remaining := PutFill(buf, at, size, remaining, c, left, a, "");
    assert "" + fill == fill;
    SoFarIsAll(a, buf[..], at, fill, text, size, remaining);
    if remaining == 0 {
      return Truncated, remaining;
    }
    remaining := PutText(buf, at, size, remaining, cut, a, fill);
    SoFarIsAll(a, buf[..], at, fill + cut, text, size, remaining);
    if remaining == 0 {
      return Truncated, remaining;
    }
    remaining := PutFill(buf, at, size, remaining, c, right, a, fill + cut);
    SoFarIsAll(a, buf[..], at, text, text, size, remaining);
    ret := if remaining == 0 then Truncated else OK;
  }

  /** stringtoa of a string that is not NULL. */
  method StringToA(buf: array<char>, at: nat, size: nat, s: string, info: Info)
    returns (ret: Status, remaining: nat)
    requires at + size <= buf.Length
    modifies buf
    ensures Wrote(old(buf[..]), buf[..], at, StringWritten(info, s, size))
    ensures ret == StringStatus(info, s, size)
    ensures remaining == size - |StringWritten(info, s, size)|
    ensures ret == OK <==> |StringText(info, s)| < size
    ensures ret == OK ==> Wrote(old(buf[..]), buf[..], at, StringText(info, s))
  {
    hide Wrote, Cut, Repeat;
    CutLength(StringText(info, s), size);
    var c := ' ';
    var slen := |s|;
    if info.precise != 0 {
      slen := Min(slen, info.precise);
    }
    var count := Max(slen, info.minWidth) - slen;
    var left, right := count, 0;
    if info.align != DefaultAlign && info.fill != '\0' {
      c := info.fill;
    }
    if info.align == LeftAlign {
      left, right := count, 0;
    } else if info.align == RightAlign {
      left, right := 0, count;
    } else if info.align == CenterAlign {
      left := count / 2;
      right := count - left;
    }
    ghost var text := Repeat(c, left) + s[..slen] + Repeat(c, right);
    assert text == StringText(info, s) by {
      assert s[..|s|] == s;
    }
    ret, remaining := WriteFilled(buf, at, size, c, left, s[..slen], right);
  }

  /** A string is cut to the precision and padded to exactly the minimum width. */
  lemma StringTextWidth(info: Info, s: string)
    ensures var shown := if info.precise != 0 then Min(|s|, info.precise) else |s|;
            |StringText(info, s)| == Max(shown, info.minWidth)
  {
  }
}
