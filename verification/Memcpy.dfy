/**
 The memory copies of arch/armv8/src/memcpy.S and their dispatch in arch/armv8/src/string.c.
 Memory is one array of bytes, so that source and destination may overlap.  Registers are
 local variables; a pair of 64-bit registers filled by one ldp holds 16 bytes.
 */
module Memcpy {
  import opened Util

  newtype Byte = x: int | 0 <= x < 256

  /** A copy in progress: the memory at its start, the two addresses and the size. */
  datatype Job = Job(before: seq<Byte>, dst: nat, src: nat, n: nat) {

    /** Both regions exist. */
    predicate Exists() {
      dst + n <= |before| && src + n <= |before|
    }

    /** The destination starts inside the source, above its start: ascending copies overwrite unread bytes. */
    predicate Above() {
      src < dst < src + n
    }

    /** Loads may run m bytes ahead of the stores. */
    predicate Reach(m: nat) {
      Above() ==> m <= dst - src
    }

    /** What the assembly copies other than byte by byte: no overlap from above by 256 bytes or less. */
    predicate Ok() {
      Exists() && Reach(CPU_MEMCPY_STRIDE + 1)
    }

    /** Byte i of the source as it was at the start. */
    function Given(i: nat): Byte
      requires Exists() && i < n
    {
      before[src + i]
    }

    /** What an ascending copy leaves at offset i: the source byte, unless that was overwritten by then. */
    function Want(i: nat): Byte
      requires Exists() && i < n
      decreases i
    {
      if Above() && dst - src <= i then Want(i - (dst - src)) else Given(i)
    }

    /** The w bytes that an ascending copy reads from offset k on. */
    function Source(k: nat, w: nat): seq<Byte>
      requires Exists() && k + w <= n
    {
      seq(w, t requires 0 <= t < w => Want(k + t))
    }

    /** The source repeats itself with the distance between the two regions. */
    predicate Periodic()
      requires Exists() && Above()
    {
      forall i: nat :: dst - src <= i < n ==> Given(i) == Given(i - (dst - src))
    }

    /** The memory after a faithful copy: exactly n bytes from the source, and nothing else changed. */
    function Result(): seq<Byte>
      requires Exists()
    {
      before[..dst] + before[src..src + n] + before[dst + n..]
    }
  }

  const CPU_MEMCPY_STRIDE: nat := 256

  /** The first k bytes are copied, and nothing else in memory has changed. */
  ghost predicate Copied(mem: seq<Byte>, j: Job, k: nat)
    requires j.Exists() && k <= j.n
  {
    |mem| == |j.before| &&
    forall i {:trigger mem[i]} :: 0 <= i < |mem| ==>
      mem[i] == if j.dst <= i < j.dst + k then j.Want(i - j.dst) else j.before[i]
  }

  // ----- Loads and stores -----

  /**
   A load at offset q sees what a copy byte by byte would see there, as long as no more than q bytes
   are copied and the load does not run further ahead of the stores than the overlap allows.
   */
  lemma LoadsSource(mem: seq<Byte>, j: Job, k: nat, q: nat, w: nat)
    requires j.Exists() && k <= q && q + w <= j.n && Copied(mem, j, k) && j.Reach(q + w - k)
    ensures mem[j.src + q..j.src + q + w] == j.Source(q, w)
  {
    var loaded := mem[j.src + q..j.src + q + w];
    forall t | 0 <= t < w
      ensures loaded[t] == j.Source(q, w)[t]
    {
      LoadsByte(mem, j, k, q + t);
    }
  }

  lemma LoadsByte(mem: seq<Byte>, j: Job, k: nat, q: nat)
    requires j.Exists() && k <= q < j.n && Copied(mem, j, k) && j.Reach(q + 1 - k)
    ensures mem[j.src + q] == j.Want(q)
  {
    if j.Above() && j.dst <= j.src + q {
      var earlier: nat := q - (j.dst - j.src);
      assert j.src + q == j.dst + earlier;
      assert mem[j.dst + earlier] == j.Want(earlier);
    }
  }

  /** A load instruction of w bytes. */
  function Load(mem: array<Byte>, addr: nat, w: nat): seq<Byte>
    requires addr + w <= mem.Length
    reads mem
  {
    mem[addr..addr + w]
  }

  /** A store instruction. */
  method Store(mem: array<Byte>, addr: nat, v: seq<Byte>, ghost j: Job, ghost k: nat)
    requires j.Exists() && k + |v| <= j.n && Copied(mem[..], j, k)
    requires addr == j.dst + k && v == j.Source(k, |v|)
    modifies mem
    ensures Copied(mem[..], j, k + |v|)
  {
    for i := 0 to |v|
      invariant Copied(mem[..], j, k + i)
    {
      mem[addr + i] := v[i];
    }
  }

  /** A load and a store of w bytes at the same offset, as in the single steps. */
  method Move(mem: array<Byte>, x0: nat, x1: nat, w: nat, ghost j: Job, ghost k: nat)
    requires j.Exists() && j.Reach(w) && k + w <= j.n && Copied(mem[..], j, k) && x0 == j.dst + k && x1 == j.src + k
    modifies mem
    ensures Copied(mem[..], j, k + w)
  {
    hide Copied;
    CopiedLength(mem[..], j, k);
    LoadsSource(mem[..], j, k, k, w);
    var x3 := Load(mem, x1, w);
    Store(mem, x0, x3, j, k);
  }

  lemma CopiedLength(mem: seq<Byte>, j: Job, k: nat)
    requires j.Exists() && k <= j.n && Copied(mem, j, k)
    ensures |mem| == |j.before|
  {
  }

  /** A store of a pair at offset k followed by a load of the next pair at offset q. */
  method StpLdp(mem: array<Byte>, x0: nat, pair: seq<Byte>, x1: nat, ghost j: Job, ghost k: nat, ghost q: nat)
    returns (next: seq<Byte>)
    requires j.Ok() && k + 16 <= q <= k + 0x80 && q + 16 <= j.n && Copied(mem[..], j, k)
    requires x0 == j.dst + k && x1 == j.src + q && pair == j.Source(k, 16)
    modifies mem
    ensures Copied(mem[..], j, k + 16) && next == j.Source(q, 16)
  {
    hide Copied;
    Store(mem, x0, pair, j, k);
    CopiedLength(mem[..], j, k + 16);
    LoadsSource(mem[..], j, k + 16, q, 16);
    next := Load(mem, x1, 16);
  }

  method Stp(mem: array<Byte>, x0: nat, pair: seq<Byte>, ghost j: Job, ghost k: nat)
    requires j.Ok() && k + 16 <= j.n && Copied(mem[..], j, k) && x0 == j.dst + k && pair == j.Source(k, 16)
    modifies mem
    ensures Copied(mem[..], j, k + 16)
  {
    hide Copied;
    Store(mem, x0, pair, j, k);
  }

  method Ldp(mem: array<Byte>, x1: nat, ghost j: Job, ghost k: nat, ghost q: nat) returns (pair: seq<Byte>)
    requires j.Ok() && k <= q <= k + 0x70 && q + 16 <= j.n && Copied(mem[..], j, k) && x1 == j.src + q
    ensures pair == j.Source(q, 16)
  {
    hide Copied;
    CopiedLength(mem[..], j, k);
    LoadsSource(mem[..], j, k, q, 16);
    pair := Load(mem, x1, 16);
  }

  // ----- memcpy_below32 -----

  /** The last x2 < 16 bytes, one step for each bit of x2. */
  method Below16(mem: array<Byte>, dst: nat, src: nat, x2: nat, ghost j: Job)
    requires j.Ok() && x2 < 16 && x2 <= j.n && dst == j.dst + j.n - x2 && src == j.src + j.n - x2
    requires Copied(mem[..], j, j.n - x2)
    modifies mem
    ensures Copied(mem[..], j, j.n)
  {
    hide Copied, Job.Source;
    var x0, x1 := dst, src;
    ghost var k := j.n - x2;
    var b8, b4, b2, b1 := x2 / 8 % 2, x2 / 4 % 2, x2 / 2 % 2, x2 % 2;
    Bits(x2);
    assert x2 == b8 * 8 + b4 * 4 + b2 * 2 + b1;
    if b8 == 1 {
      Move(mem, x0, x1, 8, j, k);
      x0, x1, k := x0 + 8, x1 + 8, k + 8;
    }
    if b4 == 1 {
      Move(mem, x0, x1, 4, j, k);
      x0, x1, k := x0 + 4, x1 + 4, k + 4;
    }
    if b2 == 1 {
      Move(mem, x0, x1, 2, j, k);
      x0, x1, k := x0 + 2, x1 + 2, k + 2;
    }
    if b1 == 1 {
      Move(mem, x0, x1, 1, j, k);
      k := k + 1;
    }
  }

  lemma Bits(x: nat)
    requires x < 16
    ensures x == x / 8 % 2 * 8 + x / 4 % 2 * 4 + x / 2 % 2 * 2 + x % 2
  {
    assert x == x / 2 * 2 + x % 2;
    assert x / 2 == x / 4 * 2 + x / 2 % 2;
    assert x / 4 == x / 8 * 2 + x / 4 % 2;
  }

  /** memcpy_below32: at most 31 bytes. */
  method Below32(mem: array<Byte>, dst: nat, src: nat, x2: nat, ghost j: Job)
    requires j.Ok() && x2 < 32 && x2 == j.n && dst == j.dst && src == j.src && mem[..] == j.before
    modifies mem
    ensures Copied(mem[..], j, j.n)
  {
    var x0, x1 := dst, src;
    ghost var k := 0;
    assert Copied(mem[..], j, 0);
    hide Copied;
    if x2 / 16 % 2 == 1 {
      Move(mem, x0, x1, 16, j, 0);
      x0, x1, k := x0 + 16, x1 + 16, 16;
    }
    Below16(mem, x0, x1, x2 % 16, j);
  }

  // ----- memcpy_align16 -----

  /** The eight register pairs x3..x18 hold the 128-byte chunk at offset k. */
  ghost predicate HoldChunk(j: Job, k: nat, x3: seq<Byte>, x5: seq<Byte>, x7: seq<Byte>, x9: seq<Byte>,
                            x11: seq<Byte>, x13: seq<Byte>, x15: seq<Byte>, x17: seq<Byte>)
    requires j.Ok() && k + 0x80 <= j.n
  {
    x3 == j.Source(k, 16) && x5 == j.Source(k + 0x10, 16) && x7 == j.Source(k + 0x20, 16) &&
    x9 == j.Source(k + 0x30, 16) && x11 == j.Source(k + 0x40, 16) && x13 == j.Source(k + 0x50, 16) &&
    x15 == j.Source(k + 0x60, 16) && x17 == j.Source(k + 0x70, 16)
  }

  /** The loads of the first chunk; the last one writes its address back. */
  method LoadChunk(mem: array<Byte>, x1: nat, ghost j: Job, ghost k: nat)
    returns (x3: seq<Byte>, x5: seq<Byte>, x7: seq<Byte>, x9: seq<Byte>,
             x11: seq<Byte>, x13: seq<Byte>, x15: seq<Byte>, x17: seq<Byte>)
    requires j.Ok() && k + 0x80 <= j.n && Copied(mem[..], j, k) && x1 == j.src + k
    ensures HoldChunk(j, k, x3, x5, x7, x9, x11, x13, x15, x17)
  {
    hide Copied;
    x3 := Ldp(mem, x1, j, k, k);
    x5 := Ldp(mem, x1 + 0x10, j, k, k + 0x10);
    x7 := Ldp(mem, x1 + 0x20, j, k, k + 0x20);
    x9 := Ldp(mem, x1 + 0x30, j, k, k + 0x30);
    x11 := Ldp(mem, x1 + 0x40, j, k, k + 0x40);
    x13 := Ldp(mem, x1 + 0x50, j, k, k + 0x50);
    x15 := Ldp(mem, x1 + 0x60, j, k, k + 0x60);
    x17 := Ldp(mem, x1 + 0x70, j, k, k + 0x70);
  }

  /** The interleaved stores of the chunk at k and loads of the chunk after it. */
  method StoreLoadChunk(mem: array<Byte>, x0: nat, x1: nat, ghost j: Job, ghost k: nat,
                        a3: seq<Byte>, a5: seq<Byte>, a7: seq<Byte>, a9: seq<Byte>,
                        a11: seq<Byte>, a13: seq<Byte>, a15: seq<Byte>, a17: seq<Byte>)
    returns (x3: seq<Byte>, x5: seq<Byte>, x7: seq<Byte>, x9: seq<Byte>,
             x11: seq<Byte>, x13: seq<Byte>, x15: seq<Byte>, x17: seq<Byte>)
    requires j.Ok() && k + 0x100 <= j.n && Copied(mem[..], j, k)
    requires x0 == j.dst + k + 0x70 && x1 == j.src + k + 0x70
    requires HoldChunk(j, k, a3, a5, a7, a9, a11, a13, a15, a17)
    modifies mem
    ensures Copied(mem[..], j, k + 0x80) && HoldChunk(j, k + 0x80, x3, x5, x7, x9, x11, x13, x15, x17)
  {
    hide Copied;
    x3 := StpLdp(mem, x0 - 0x70, a3, x1 + 0x10, j, k, k + 0x80);
    x5 := StpLdp(mem, x0 - 0x60, a5, x1 + 0x20, j, k + 0x10, k + 0x90);
    x7 := StpLdp(mem, x0 - 0x50, a7, x1 + 0x30, j, k + 0x20, k + 0xa0);
    x9 := StpLdp(mem, x0 - 0x40, a9, x1 + 0x40, j, k + 0x30, k + 0xb0);
    x11 := StpLdp(mem, x0 - 0x30, a11, x1 + 0x50, j, k + 0x40, k + 0xc0);
    x13 := StpLdp(mem, x0 - 0x20, a13, x1 + 0x60, j, k + 0x50, k + 0xd0);
    x15 := StpLdp(mem, x0 - 0x10, a15, x1 + 0x70, j, k + 0x60, k + 0xe0);
    x17 := StpLdp(mem, x0, a17, x1 + 0x80, j, k + 0x70, k + 0xf0);
  }

  method StoreChunk(mem: array<Byte>, x0: nat, ghost j: Job, ghost k: nat,
                    x3: seq<Byte>, x5: seq<Byte>, x7: seq<Byte>, x9: seq<Byte>,
                    x11: seq<Byte>, x13: seq<Byte>, x15: seq<Byte>, x17: seq<Byte>)
    requires j.Ok() && k + 0x80 <= j.n && Copied(mem[..], j, k) && x0 == j.dst + k + 0x70
    requires HoldChunk(j, k, x3, x5, x7, x9, x11, x13, x15, x17)
    modifies mem
    ensures Copied(mem[..], j, k + 0x80)
  {
    hide Copied;
    Stp(mem, x0 - 0x70, x3, j, k);
    Stp(mem, x0 - 0x60, x5, j, k + 0x10);
    Stp(mem, x0 - 0x50, x7, j, k + 0x20);
    Stp(mem, x0 - 0x40, x9, j, k + 0x30);
    Stp(mem, x0 - 0x30, x11, j, k + 0x40);
    Stp(mem, x0 - 0x20, x13, j, k + 0x50);
    Stp(mem, x0 - 0x10, x15, j, k + 0x60);
    Stp(mem, x0, x17, j, k + 0x70);
  }

  /**
   The pipelined loop, for at least two chunks: chunk n is stored while chunk n + 1 is loaded.
   Both pointers run 0x70 bytes ahead, and the size 0x100 bytes behind.
   */
  method ChunkLoop(mem: array<Byte>, dst: nat, src: nat, size: nat, ghost j: Job)
    returns (x0: nat, x1: nat, x2: nat)
    requires j.Ok() && 0x100 <= size <= j.n && Copied(mem[..], j, j.n - size)
    requires dst == j.dst + j.n - size && src == j.src + j.n - size
    modifies mem
    ensures x2 <= j.n && x2 < 0x80 && Copied(mem[..], j, j.n - x2)
    ensures x0 == j.dst + j.n - x2 && x1 == j.src + j.n - x2
  {
    hide Copied, HoldChunk;
    ghost var k := j.n - size;
    x0 := dst + 0x70;
    var left: int := size - 0x100;
    var x3, x5, x7, x9, x11, x13, x15, x17 := LoadChunk(mem, src, j, k);
    x1 := src + 0x70;
    while true
      invariant 0 <= left && k + 0x100 + left == j.n && x0 == j.dst + k + 0x70 && x1 == j.src + k + 0x70
      invariant Copied(mem[..], j, k) && HoldChunk(j, k, x3, x5, x7, x9, x11, x13, x15, x17)
      decreases left
    {
      left := left - 0x80;
      x3, x5, x7, x9, x11, x13, x15, x17 :=
        StoreLoadChunk(mem, x0, x1, j, k, x3, x5, x7, x9, x11, x13, x15, x17);
      x0, x1, k := x0 + 0x80, x1 + 0x80, k + 0x80;
      if left < 0 {
        break;
      }
    }
    x2 := left + 0x80;
    StoreChunk(mem, x0, j, k, x3, x5, x7, x9, x11, x13, x15, x17);
    x0 := x0 + 16;
    x1 := x1 + 16;
  }

  /** memcpy_below256's single chunk: later loads are interleaved with the first stores. */
  method OneChunk(mem: array<Byte>, x0: nat, x1: nat, ghost j: Job, ghost k: nat)
    requires j.Ok() && k + 0x80 <= j.n && Copied(mem[..], j, k) && x0 == j.dst + k && x1 == j.src + k
    modifies mem
    ensures Copied(mem[..], j, k + 0x80)
  {
    hide Copied;
    var x3 := Ldp(mem, x1, j, k, k);
    var x5 := Ldp(mem, x1 + 0x10, j, k, k + 0x10);
    var x7 := Ldp(mem, x1 + 0x20, j, k, k + 0x20);
    var x9 := Ldp(mem, x1 + 0x30, j, k, k + 0x30);
    var x11 := StpLdp(mem, x0, x3, x1 + 0x40, j, k, k + 0x40);
    var x13 := StpLdp(mem, x0 + 0x10, x5, x1 + 0x50, j, k + 0x10, k + 0x50);
    var x15 := StpLdp(mem, x0 + 0x20, x7, x1 + 0x60, j, k + 0x20, k + 0x60);
    var x17 := StpLdp(mem, x0 + 0x30, x9, x1 + 0x70, j, k + 0x30, k + 0x70);
    Stp(mem, x0 + 0x40, x11, j, k + 0x40);
    Stp(mem, x0 + 0x50, x13, j, k + 0x50);
    Stp(mem, x0 + 0x60, x15, j, k + 0x60);
    Stp(mem, x0 + 0x70, x17, j, k + 0x70);
  }

  /** The first computed jump of memcpy_below128: the last x4 of seven loads are executed. */
  method LoadBlocks(mem: array<Byte>, x1: nat, x4: nat, ghost j: Job, ghost k: nat)
    returns (x5: seq<Byte>, x7: seq<Byte>, x9: seq<Byte>,
             x11: seq<Byte>, x13: seq<Byte>, x15: seq<Byte>, x17: seq<Byte>)
    requires j.Ok() && x4 <= 7 && 16 * x4 <= k <= j.n && Copied(mem[..], j, k - 16 * x4) && x1 == j.src + k
    ensures x4 >= 7 ==> x5 == j.Source(k - 0x70, 16)
    ensures x4 >= 6 ==> x7 == j.Source(k - 0x60, 16)
    ensures x4 >= 5 ==> x9 == j.Source(k - 0x50, 16)
    ensures x4 >= 4 ==> x11 == j.Source(k - 0x40, 16)
    ensures x4 >= 3 ==> x13 == j.Source(k - 0x30, 16)
    ensures x4 >= 2 ==> x15 == j.Source(k - 0x20, 16)
    ensures x4 >= 1 ==> x17 == j.Source(k - 0x10, 16)
  {
    hide Copied, Job.Source;
    x5, x7, x9, x11, x13, x15, x17 := [], [], [], [], [], [], [];
    ghost var c := k - 16 * x4;
    if x4 >= 7 { x5 := Ldp(mem, x1 - 0x70, j, c, k - 0x70); }
    if x4 >= 6 { x7 := Ldp(mem, x1 - 0x60, j, c, k - 0x60); }
    if x4 >= 5 { x9 := Ldp(mem, x1 - 0x50, j, c, k - 0x50); }
    if x4 >= 4 { x11 := Ldp(mem, x1 - 0x40, j, c, k - 0x40); }
    if x4 >= 3 { x13 := Ldp(mem, x1 - 0x30, j, c, k - 0x30); }
    if x4 >= 2 { x15 := Ldp(mem, x1 - 0x20, j, c, k - 0x20); }
    if x4 >= 1 { x17 := Ldp(mem, x1 - 0x10, j, c, k - 0x10); }
  }

  /** The two computed jumps enter seven loads, and then seven stores, so that exactly the last x4 are executed. */
  method Blocks(mem: array<Byte>, x0: nat, x1: nat, x4: nat, ghost j: Job, ghost k: nat)
    requires j.Ok() && x4 <= 7 && 16 * x4 <= k <= j.n && Copied(mem[..], j, k - 16 * x4)
    requires x0 == j.dst + k && x1 == j.src + k
    modifies mem
    ensures Copied(mem[..], j, k)
  {
    hide Copied, Job.Source;
    var x5, x7, x9, x11, x13, x15, x17 := LoadBlocks(mem, x1, x4, j, k);
    ghost var c := k - 16 * x4;
    if x4 >= 7 { Stp(mem, x0 - 0x70, x5, j, c); c := c + 16; }
    if x4 >= 6 { Stp(mem, x0 - 0x60, x7, j, c); c := c + 16; }
    if x4 >= 5 { Stp(mem, x0 - 0x50, x9, j, c); c := c + 16; }
    if x4 >= 4 { Stp(mem, x0 - 0x40, x11, j, c); c := c + 16; }
    if x4 >= 3 { Stp(mem, x0 - 0x30, x13, j, c); c := c + 16; }
    if x4 >= 2 { Stp(mem, x0 - 0x20, x15, j, c); c := c + 16; }
    if x4 >= 1 { Stp(mem, x0 - 0x10, x17, j, c); c := c + 16; }
  }

  /** memcpy_align16: at least 16 bytes to a 16-byte aligned target. */
  method Align16(mem: array<Byte>, dst: nat, src: nat, size: nat, ghost j: Job)
    requires j.Ok() && 16 <= size <= j.n && dst % 16 == 0 && Copied(mem[..], j, j.n - size)
    requires dst == j.dst + j.n - size && src == j.src + j.n - size
    modifies mem
    ensures Copied(mem[..], j, j.n)
  {
    hide Copied;
    var x0, x1, x2 := dst, src, size;
    if x2 >= 0x100 {
      x0, x1, x2 := ChunkLoop(mem, x0, x1, x2, j);
      if x2 == 0 {
        return;
      }
    }
    if x2 >= 0x80 {
      OneChunk(mem, x0, x1, j, j.n - x2);
      x0, x1, x2 := x0 + 0x80, x1 + 0x80, x2 - 0x80;
    }
    var x4 := x2 / 16;
    x0, x1, x2 := x0 + 16 * x4, x1 + 16 * x4, x2 - 16 * x4;
    Blocks(mem, x0, x1, x4, j, j.n - x2);
    if x2 != 0 {
      Below16(mem, x0, x1, x2, j);
    }
  }

  // ----- memcpy_alignable -----

  /** One alignment step: if the target is an odd multiple of w, copy w bytes. */
  method AlignStep(mem: array<Byte>, dst: nat, src: nat, size: nat, w: nat, ghost j: Job)
    returns (x0: nat, x1: nat, x2: nat)
    requires j.Ok() && (w == 1 || w == 2 || w == 4 || w == 8) && dst % w == 0 && w <= size <= j.n
    requires dst == j.dst + j.n - size && src == j.src + j.n - size && Copied(mem[..], j, j.n - size)
    modifies mem
    ensures size - w <= x2 <= size && Copied(mem[..], j, j.n - x2) && x0 % (2 * w) == 0
    ensures x0 == j.dst + j.n - x2 && x1 == j.src + j.n - x2
  {
    hide Copied;
    x0, x1, x2 := dst, src, size;
    EvenMultiple(x0, w);
    if x0 / w % 2 == 1 {
      Move(mem, x0, x1, w, j, j.n - x2);
      x0, x1, x2 := x0 + w, x1 + w, x2 - w;
    }
  }

  lemma EvenMultiple(x: nat, w: nat)
    requires (w == 1 || w == 2 || w == 4 || w == 8) && x % w == 0
    ensures if x / w % 2 == 1 then (x + w) % (2 * w) == 0 else x % (2 * w) == 0
  {
    if w == 2 {
      EvenMultipleOf2(x);
    } else if w == 4 {
      EvenMultipleOf4(x);
    } else if w == 8 {
      EvenMultipleOf8(x);
    }
  }

  lemma EvenMultipleOf2(x: nat)
    requires x % 2 == 0
    ensures if x / 2 % 2 == 1 then (x + 2) % 4 == 0 else x % 4 == 0
  {
  }

  lemma EvenMultipleOf4(x: nat)
    requires x % 4 == 0
    ensures if x / 4 % 2 == 1 then (x + 4) % 8 == 0 else x % 8 == 0
  {
  }

  lemma EvenMultipleOf8(x: nat)
    requires x % 8 == 0
    ensures if x / 8 % 2 == 1 then (x + 8) % 16 == 0 else x % 16 == 0
  {
  }

  /** memcpy_alignable: at least 31 bytes; single steps first align the target. */
  method Alignable(mem: array<Byte>, dst: nat, src: nat, size: nat, ghost j: Job)
    requires j.Ok() && 31 <= size == j.n && dst == j.dst && src == j.src && mem[..] == j.before
    modifies mem
    ensures Copied(mem[..], j, j.n)
  {
    assert Copied(mem[..], j, 0);
    hide Copied;
    var x0, x1, x2 := AlignStep(mem, dst, src, size, 1, j);
    x0, x1, x2 := AlignStep(mem, x0, x1, x2, 2, j);
    x0, x1, x2 := AlignStep(mem, x0, x1, x2, 4, j);
    x0, x1, x2 := AlignStep(mem, x0, x1, x2, 8, j);
    Align16(mem, x0, x1, x2, j);
  }

  // ----- memcpy, memscpy, memmove -----

  /** Unless the destination is above an overlapping source, a finished copy is faithful. */
  lemma CopiedIsResult(mem: seq<Byte>, j: Job)
    requires j.Exists() && Copied(mem, j, j.n)
    ensures !j.Above() ==> mem == j.Result()
  {
    if !j.Above() {
      forall i | 0 <= i < |mem|
        ensures mem[i] == j.Result()[i]
      {
      }
    }
  }

  /** memcpy copies exactly n bytes and writes nothing else, also to a destination below an overlapping source. */
  method Copy(mem: array<Byte>, s1: nat, s2: nat, n: nat)
    requires Job(mem[..], s1, s2, n).Ok()
    modifies mem
    ensures var j := Job(old(mem[..]), s1, s2, n);
            Copied(mem[..], j, n) && (!j.Above() ==> mem[..] == j.Result())
  {
    ghost var j := Job(mem[..], s1, s2, n);
    if n == 0 {
    } else if n < 32 {
      Below32(mem, s1, s2, n, j);
    } else if s1 % 16 == 0 {
      assert Copied(mem[..], j, 0);
      Align16(mem, s1, s2, n, j);
    } else {
      Alignable(mem, s1, s2, n, j);
    }
    CopiedIsResult(mem[..], j);
  }

  /** memscpy: as much as fits into the destination. */
  method CopyBounded(mem: array<Byte>, s1: nat, s1Size: nat, s2: nat, s2Size: nat) returns (count: nat)
    requires Job(mem[..], s1, s2, Min(s1Size, s2Size)).Ok()
    modifies mem
    ensures count == Min(s1Size, s2Size)
    ensures var j := Job(old(mem[..]), s1, s2, count);
            Copied(mem[..], j, count) && (!j.Above() ==> mem[..] == j.Result())
  {
    count := Min(s1Size, s2Size);
    if count != 0 {
      Copy(mem, s1, s2, count);
    }
  }

  /**
   memmove, for any two regions.  An ascending copy is not what a destination above an overlapping
   source needs; there memmove is right if and only if the source repeats itself with the distance
   between the two.  The C code's third test cannot hold once s1 is above s2, so it is not repeated.
   */
  method MoveBytes(mem: array<Byte>, s1: nat, s2: nat, n: nat)
    requires Job(mem[..], s1, s2, n).Exists()
    modifies mem
    ensures var j := Job(old(mem[..]), s1, s2, n);
            Copied(mem[..], j, n) && (mem[..] == j.Result() <==> (j.Above() ==> j.Periodic()))
  {
    ghost var j := Job(mem[..], s1, s2, n);
    if s1 == s2 {
      assert Copied(mem[..], j, n);
    } else if s1 < s2 {
      Copy(mem, s1, s2, n);
    } else if s2 + CPU_MEMCPY_STRIDE < s1 {
      Copy(mem, s1, s2, n);
    } else {
      CopyBytes(mem, s1, s2, n, j);
    }
    FaithfulIff(mem[..], j);
  }

  /** memcpy_bytes: one byte at a time, for any two regions. */
  method CopyBytes(mem: array<Byte>, dst: nat, src: nat, size: nat, ghost j: Job)
    requires j.Exists() && size == j.n && dst == j.dst && src == j.src && mem[..] == j.before
    modifies mem
    ensures Copied(mem[..], j, j.n)
  {
    assert Copied(mem[..], j, 0);
    hide Copied;
    var x0, x1, x2 := dst, src, size;
    while x2 != 0
      invariant 0 <= x2 <= j.n && x0 == j.dst + j.n - x2 && x1 == j.src + j.n - x2
      invariant Copied(mem[..], j, j.n - x2)
    {
      x2 := x2 - 1;
      Move(mem, x0, x1, 1, j, j.n - x2 - 1);
      x0, x1 := x0 + 1, x1 + 1;
    }
  }

  // ----- A destination above an overlapping source -----

  /** The copy is faithful exactly if every wanted byte is the source byte. */
  lemma FaithfulIff(mem: seq<Byte>, j: Job)
    requires j.Exists() && Copied(mem, j, j.n)
    ensures mem == j.Result() <==> (j.Above() ==> j.Periodic())
  {
    hide Copied, Job.Periodic, Job.Want, Job.Result;
    if j.Above() {
      ResultIff(mem, j);
      WantIsGivenIff(j);
    } else {
      CopiedIsResult(mem, j);
    }
  }

  predicate WantIsGiven(j: Job)
    requires j.Exists()
  {
    forall i: nat :: i < j.n ==> j.Want(i) == j.Given(i)
  }

  lemma ResultIff(mem: seq<Byte>, j: Job)
    requires j.Exists() && Copied(mem, j, j.n)
    ensures mem == j.Result() <==> WantIsGiven(j)
  {
    hide Job.Want;
    var result := j.Result();
    assert forall p :: j.dst <= p < j.dst + j.n ==> result[p] == j.Given(p - j.dst);
    assert forall p :: 0 <= p < j.dst || j.dst + j.n <= p < |mem| ==> result[p] == j.before[p];
    if mem == result {
      forall i: nat | i < j.n
        ensures j.Want(i) == j.Given(i)
      {
        assert mem[j.dst + i] == j.Want(i) && result[j.dst + i] == j.Given(i);
      }
    }
    if WantIsGiven(j) {
      forall p | 0 <= p < |mem|
        ensures mem[p] == result[p]
      {
        if j.dst <= p < j.dst + j.n {
          assert j.Want(p - j.dst) == j.Given(p - j.dst);
        }
      }
    }
  }

  lemma WantIsGivenIff(j: Job)
    requires j.Exists() && j.Above()
    ensures WantIsGiven(j) <==> j.Periodic()
  {
    hide Job.Given;
    var d := j.dst - j.src;
    if j.Periodic() {
      forall i: nat | i < j.n
        ensures j.Want(i) == j.Given(i)
      {
        PeriodicWant(j, i);
      }
    }
    if WantIsGiven(j) {
      forall i: nat | d <= i < j.n
        ensures j.Given(i) == j.Given(i - d)
      {
        assert j.Want(i) == j.Given(i) && j.Want(i - d) == j.Given(i - d);
      }
    }
  }

  lemma {:induction false} PeriodicWant(j: Job, i: nat)
    requires j.Exists() && j.Above() && j.Periodic() && i < j.n
    ensures j.Want(i) == j.Given(i)
    decreases i
  {
    if j.dst - j.src <= i {
      PeriodicWant(j, i - (j.dst - j.src));
    }
  }

  /** Above an overlapping source the first bytes of the source are repeated over and over. */
  lemma {:induction false} WantRepeats(j: Job, i: nat)
    requires j.Exists() && j.Above() && i < j.n
    ensures 0 <= i % (j.dst - j.src) <= i && j.Want(i) == j.Given(i % (j.dst - j.src))
    decreases i
  {
    var d: nat := j.dst - j.src;
    RemainderOfLess(i, d);
    if d <= i {
      WantRepeats(j, i - d);
    }
  }

  /** Two bytes moved up by one: the second byte of the source is lost. */
  lemma MovedUpExample()
    ensures var j := Job([1, 2, 3], 1, 0, 2);
            j.Above() && !j.Periodic() && j.Result() == [1, 1, 2] && Copied([1, 1, 1], j, 2)
  {
    var j := Job([1, 2, 3], 1, 0, 2);
    assert j.Given(0) == 1 && j.Given(1) == 2 && j.Given(1) != j.Given(1 - 1);
    assert j.Want(0) == 1 && j.Want(1) == j.Want(0);
  }

  lemma RemainderOfLess(i: nat, d: nat)
    requires 0 < d
    ensures 0 <= i % d <= i
    ensures if i < d then i % d == i else (i - d) % d == i % d
  {
    var q, r := i / d, i % d;
    assert i == q * d + r;
    if d <= i {
      Distribute(q, 1, d);
      RemainderIsUnique(i - d, d, q - 1, r);
      RemainderIsSmall(i, d);
    } else {
      RemainderIsUnique(i, d, 0, i);
    }
  }

  lemma RemainderIsSmall(i: nat, d: nat)
    requires 0 < d
    ensures 0 <= i % d < d
  {
  }

  lemma Distribute(p: int, q: int, d: nat)
    ensures (p - q) * d == p * d - q * d
  {
  }

  lemma AtLeastOnce(p: int, d: nat)
    requires 1 <= p
    ensures d <= p * d
  {
  }

  lemma RemainderIsUnique(x: nat, d: nat, q: int, r: nat)
    requires r < d && x == q * d + r
    ensures x % d == r
  {
    var p := x / d;
    RemainderIsSmall(x, d);
    assert x == p * d + x % d;
    Distribute(p, q, d);
    Distribute(q, p, d);
    if p > q {
      AtLeastOnce(p - q, d);
    } else if p < q {
      AtLeastOnce(q - p, d);
    }
  }
}
