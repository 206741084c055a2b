/**
 The ring buffer of the log (src/log_buf.c).  It refines the history of everything ever
 appended: reading backwards from the write index gives the end of the history.
 */
module LogBuffer {
  import opened Util
  import opened Buffers

  const EARLY_SIZE: nat := 304

  /** The largest memory area that log_set_buffer accepts. */
  const MAX_AREA: nat := 524288

  /** The two 32-bit fields in front of the characters. */
  const HEADER_SIZE: nat := 8

  /** The index k places before w in a ring of the given size. */
  function Back(w: nat, k: nat, size: nat): nat
    requires w < size && k <= size
  {
    if k <= w then w - k else w + size - k
  }

  /** The index j places after w. */
  function Forward(w: nat, j: nat, size: nat): nat
    requires w < size && j <= size
  {
    if w + j < size then w + j else w + j - size
  }

  /** The part of a message that fits: its last size - 1 characters. */
  function Kept(msg: string, size: nat): string
    requires 0 < size
  {
    if |msg| >= size then msg[|msg| - (size - 1)..] else msg
  }

  /** Reading backwards from w gives the end of the history. */
  ghost predicate Reads(chars: string, w: nat, size: nat, history: string) {
    w < size <= |chars| &&
    forall k :: 1 <= k < size && k <= |history| ==> chars[Back(w, k, size)] == history[|history| - k]
  }

  class Log {
    var buffer: array<char>
    var size: nat
    var writeIdx: nat
    /** Everything appended since the buffer was installed. */
    ghost var history: string
    ghost var appended: bool

    ghost predicate Valid()
      reads this, buffer
    {
      0 < size <= buffer.Length && size <= MAX_AREA && Reads(buffer[..], writeIdx, size, history) &&
      (appended ==> buffer[writeIdx] == '\0')
    }

    constructor ()
      ensures Valid() && fresh(buffer) && size == EARLY_SIZE && history == "" && !appended
    {
      buffer := new char[EARLY_SIZE](_ => '\0');
      size, writeIdx := EARLY_SIZE, 0;
      history, appended := "", false;
    }

    /** log_set_buffer: the memory area holds the header and the characters. */
    method SetBuffer(area: array<char>, areaSize: nat)
      requires 16 < areaSize <= MAX_AREA && area.Length == areaSize - HEADER_SIZE
      modifies this
      ensures Valid() && buffer == area && size == areaSize - HEADER_SIZE && history == "" && !appended
    {
      buffer := area;
      writeIdx := 0;
      size := areaSize - HEADER_SIZE;
      history, appended := "", false;
    }

    /** log_append */
    method Append(msg: string)
      requires Valid()
      modifies this, buffer
      ensures Valid() && appended && history == old(history) + msg
      ensures buffer == old(buffer) && size == old(size)
    {
      ghost var before := buffer[..];
      var kept := Kept(msg, size);
      WriteKept(kept);
      HistoryGrows(before, buffer[..], writeIdx, size, history, msg);
      var next := writeIdx + |kept|;
      assert next < 0x1_0000_0000;
      writeIdx := if next >= size then next - size else next;
      TerminatorIsOutside(buffer[..], writeIdx, size, history + msg);
      buffer[writeIdx] := '\0';
      history := history + msg;
      appended := true;
    }

    /** The one or two copies: up to the end of the buffer, and then from its start. */
    method WriteKept(kept: string)
      requires 0 < size <= buffer.Length && writeIdx < size && |kept| < size
      modifies buffer
      ensures forall j :: 0 <= j < |kept| ==> buffer[Forward(writeIdx, j, size)] == kept[j]
      ensures forall i :: 0 <= i < buffer.Length && !InWritten(i, writeIdx, |kept|, size) ==>
                buffer[i] == old(buffer[i])
    {
      var first := Memscpy(buffer, writeIdx, size - writeIdx, kept);
      var second := |kept| - first;
      if second > 0 {
        var rest := Memscpy(buffer, 0, size, kept[first..]);
      }
    }
  }

  /** The n characters before w, read cyclically, in the order in which they were written. */
  function ReadBack(chars: string, w: nat, size: nat, n: nat): string
    requires w < size <= |chars| && n < size
  {
    seq(n, i requires 0 <= i < n => chars[Back(w, n - i, size)])
  }

  /**
   What a reader of a valid log sees before the write index: the whole history, or its last
   size - 1 characters if it is longer.
   */
  lemma ReadBackIsHistory(chars: string, w: nat, size: nat, history: string)
    requires Reads(chars, w, size, history)
    ensures var n := Min(|history|, size - 1);
            ReadBack(chars, w, size, n) == history[|history| - n..]
  {
    var n := Min(|history|, size - 1);
    forall i | 0 <= i < n
      ensures ReadBack(chars, w, size, n)[i] == history[|history| - n..][i]
    {
      assert 1 <= n - i < size && n - i <= |history|;
    }
  }

  lemma HistoryGrows(before: string, after: string, w: nat, size: nat, history: string, msg: string)
    requires w < size <= |before| == |after| && Reads(before, w, size, history)
    requires var kept := Kept(msg, size);
             (forall j :: 0 <= j < |kept| ==> after[Forward(w, j, size)] == kept[j]) &&
             (forall i :: 0 <= i < |before| && !InWritten(i, w, |kept|, size) ==> after[i] == before[i])
    ensures Reads(after, Forward(w, |Kept(msg, size)|, size), size, history + msg)
  {
    var kept := Kept(msg, size);
    var m := |kept|;
    var w' := Forward(w, m, size);
    var all := history + msg;
    forall k | 1 <= k < size && k <= |all|
      ensures after[Back(w', k, size)] == all[|all| - k]
    {
      if k <= m {
        assert Back(w', k, size) == Forward(w, m - k, size);
        assert all[|all| - k] == kept[m - k];
      } else {
        assert Back(w', k, size) == Back(w, k - m, size);
        assert !InWritten(Back(w, k - m, size), w, m, size);
      }
    }
  }

  lemma TerminatorIsOutside(chars: string, w: nat, size: nat, history: string)
    requires Reads(chars, w, size, history)
    ensures Reads(chars[w := '\0'], w, size, history)
  {
  }

  /** Index i is one of the n indices from w on, around the ring. */
  predicate InWritten(i: nat, w: nat, n: nat, size: nat) {
    w <= i < w + n || i + size < w + n
  }
}
