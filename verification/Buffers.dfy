/**
 Text written into character buffers, and the two library routines that do it in bulk:
 memset and memscpy (arch/armv8/src/string.c).
 */
module Buffers {
  import opened Util

  function Repeat(c: char, n: nat): string {
    seq(n, _ => c)
  }

  /** `after` is `before` with `text` written at the given position. */
  ghost predicate Wrote(before: string, after: string, at: nat, text: string) {
    at + |text| <= |before| && after == before[..at] + text + before[at + |text|..]
  }

  lemma WroteThen(a: string, b: string, c: string, at: nat, s: string, t: string)
    requires Wrote(a, b, at, s) && Wrote(b, c, at + |s|, t)
    ensures Wrote(a, c, at, s + t)
  {
    assert b[..at + |s|] == a[..at] + s;
    assert b[at + |s| + |t|..] == a[at + |s| + |t|..];
  }

  lemma WroteByElements(before: string, after: string, at: nat, text: string)
    requires |after| == |before| && at + |text| <= |before|
    requires forall k :: 0 <= k < |text| ==> after[at + k] == text[k]
    requires forall k :: 0 <= k < at || at + |text| <= k < |before| ==> after[k] == before[k]
    ensures Wrote(before, after, at, text)
  {
    assert after[..at] == before[..at];
    assert after[at..at + |text|] == text;
    assert after[at + |text|..] == before[at + |text|..];
  }

  lemma WroteNothing(a: string, at: nat)
    requires at <= |a|
    ensures Wrote(a, a, at, "")
  {
  }

  lemma WroteOver(a: string, b: string, c: string, at: nat, s: string, t: string)
    requires |s| == |t| && Wrote(a, b, at, s) && Wrote(b, c, at, t)
    ensures Wrote(a, c, at, t)
  {
    assert b[..at] == a[..at];
    assert b[at + |s|..] == a[at + |s|..];
  }

  /** A piece of text is written as far as the room goes. */
  function Cut(text: string, room: nat): string {
    text[..Min(|text|, room)]
  }

  lemma CutNext(emission: string, done: string, piece: string, size: nat)
    requires done + piece <= emission && |done| < size
    ensures |done + piece| < size ==> Cut(piece, size - |done|) == piece
    ensures |done + piece| >= size ==>
              |emission| >= size && done + Cut(piece, size - |done|) == Cut(emission, size)
    ensures |Cut(emission, size)| <= size
  {
  }

  lemma CutLength(text: string, room: nat)
    ensures |Cut(text, room)| == Min(|text|, room)
    ensures |text| <= room ==> Cut(text, room) == text
  {
  }

  lemma CutRepeat(c: char, n: nat, room: nat)
    ensures Cut(Repeat(c, n), room) == Repeat(c, Min(n, room))
  {
  }

  lemma RepeatLength(c: char, n: nat)
    ensures |Repeat(c, n)| == n
  {
  }

  /** memset of n characters. */
  method Memset(buf: array<char>, at: nat, c: char, n: nat)
    requires at + n <= buf.Length
    modifies buf
    ensures Wrote(old(buf[..]), buf[..], at, Repeat(c, n))
  {
    for i := 0 to n
      invariant forall k :: at <= k < at + i ==> buf[k] == c
      invariant forall k :: 0 <= k < at || at + i <= k < buf.Length ==> buf[k] == old(buf[k])
    {
      buf[at + i] := c;
    }
    WroteByElements(old(buf[..]), buf[..], at, Repeat(c, n));
  }

  /**
   memscpy on characters: as much of the source as fits.  Memcpy.CopyBounded has the same contract
   on bytes, for the assembly that the C code runs here.
   */
  method Memscpy(buf: array<char>, at: nat, room: nat, source: string) returns (count: nat)
    requires at + Min(room, |source|) <= buf.Length
    modifies buf
    ensures count == Min(room, |source|)
    ensures Wrote(old(buf[..]), buf[..], at, Cut(source, room))
  {
    count := Min(room, |source|);
    for i := 0 to count
      invariant forall k :: 0 <= k < i ==> buf[at + k] == source[k]
      invariant forall k :: 0 <= k < at || at + i <= k < buf.Length ==> buf[k] == old(buf[k])
    {
      buf[at + i] := source[i];
    }
    WroteByElements(old(buf[..]), buf[..], at, source[..count]);
  }

  /**
   After `done`, the next piece of a text is written as far as the room goes: either the
   buffer is full and holds the beginning of the text, or the piece is complete.
   */
  lemma WroteNext(text: string, done: string, piece: string, size: nat, at: nat, a: string, b: string, c: string)
    requires done + piece <= text && |done| < size
    requires Wrote(a, b, at, done) && Wrote(b, c, at + |done|, Cut(piece, size - |done|))
    ensures |Cut(piece, size - |done|)| == Min(|piece|, size - |done|)
    ensures |done + piece| >= size ==> Wrote(a, c, at, Cut(text, size)) && |Cut(text, size)| == size <= |text|
    ensures |done + piece| < size ==> Wrote(a, c, at, done + piece)
  {
    hide Wrote;
    WroteThen(a, b, c, at, done, Cut(piece, size - |done|));
    CutNext(text, done, piece, size);
    CutLength(text, size);
    CutLength(piece, size - |done|);
  }
}
