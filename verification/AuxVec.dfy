/**
 The initial process stack (src/auxvec.c): words pushed downwards one at a time, and the
 program that reads them upwards again.
 */
module AuxVec {
  import opened Util
  import opened Pages

  const WORD_SIZE: nat := 8
  const STACK_ALIGNMENT: nat := 16

  /** sizeof(Elf64_Phdr) */
  const PHDR_SIZE: nat := 56

  /** The keys of the auxiliary vector, from the System V ABI and Linux. */
  const AT_NULL: nat := 0
  const AT_PHDR: nat := 3
  const AT_PHENT: nat := 4
  const AT_PHNUM: nat := 5
  const AT_PAGESZ: nat := 6
  const AT_RANDOM: nat := 25
  const AT_EXECFN: nat := 31

  datatype Entry = Entry(key: nat, value: nat)

  /** What setup_auxvector takes from the ELF header and the environment. */
  datatype AuxInfo = AuxInfo(phdr: nat, phnum: nat, execfn: nat, entropy: Option<nat>)

  /** The entries in the order in which they are pushed. */
  function AuxEntries(a: AuxInfo): seq<Entry> {
    [Entry(AT_PAGESZ, PAGE_SIZE), Entry(AT_PHDR, a.phdr), Entry(AT_PHENT, PHDR_SIZE), Entry(AT_PHNUM, a.phnum),
     Entry(AT_EXECFN, a.execfn)] +
    if a.entropy.Some? then [Entry(AT_RANDOM, a.entropy.value)] else []
  }

  function Reversed(es: seq<Entry>): seq<Entry> {
    if es == [] then [] else Reversed(es[1..]) + [es[0]]
  }

  /** The words of a vector of entries as they lie in memory, upwards. */
  function Words(es: seq<Entry>): seq<nat> {
    if es == [] then [] else [es[0].key, es[0].value] + Words(es[1..])
  }

  function Zeros(n: nat): seq<nat> {
    seq(n, _ => 0)
  }

  /** The number of padding words for a stack whose top word has this index. */
  function Pad(top: nat, argc: nat, envc: nat): nat
    requires 0 < top
  {
    ((2 + argc + envc + 1) * WORD_SIZE + (top - 1) * WORD_SIZE) % STACK_ALIGNMENT / WORD_SIZE
  }

  /** The whole initial stack, from its pointer upwards. */
  function Image(args: seq<nat>, envs: seq<nat>, entries: seq<Entry>, pad: nat): seq<nat> {
    [|args|] + args + [0] + envs + [0] + Words(Reversed(entries)) + Zeros(pad) + [0]
  }

  // ----- Pushing -----

  /** The words from p up to the old pointer are the pushed ones, and nothing else has changed. */
  ghost predicate Pushed(before: seq<nat>, after: seq<nat>, p: nat, words: seq<nat>) {
    p + |words| <= |before| && after == before[..p] + words + before[p + |words|..]
  }

  lemma PushedMore(a: seq<nat>, b: seq<nat>, c: seq<nat>, p: nat, lower: seq<nat>, upper: seq<nat>)
    requires Pushed(a, b, p + |lower|, upper) && Pushed(b, c, p, lower)
    ensures Pushed(a, c, p, lower + upper)
  {
    assert b[p + |lower|..] == upper + a[p + |lower| + |upper|..];
    assert c == a[..p] + (lower + upper) + a[p + |lower + upper|..];
  }

  /** fill_entry */
  method FillEntry(mem: array<nat>, p: nat, value: nat) returns (q: nat)
    requires 0 < p <= mem.Length
    modifies mem
    ensures q == p - 1 && Pushed(old(mem[..]), mem[..], q, [value])
  {
    q := p - 1;
    mem[q] := value;
  }

  /** fill_auxv_entry: the value first, so that the key lies below it. */
  method FillAuxvEntry(mem: array<nat>, p: nat, key: nat, value: nat) returns (q: nat)
    requires 2 <= p <= mem.Length
    modifies mem
    ensures q == p - 2 && Pushed(old(mem[..]), mem[..], q, [key, value])
  {
    ghost var a := mem[..];
    q := FillEntry(mem, p, value);
    ghost var b := mem[..];
    q := FillEntry(mem, q, key);
    PushedMore(a, b, mem[..], q, [key], [value]);
  }

  lemma WordsOfPush(es: seq<Entry>, e: Entry)
    ensures Words(Reversed(es + [e])) == [e.key, e.value] + Words(Reversed(es))
  {
    ReversedPush(es, e);
    assert ([e] + Reversed(es))[1..] == Reversed(es);
  }

  lemma ReversedPush(es: seq<Entry>, e: Entry)
    ensures Reversed(es + [e]) == [e] + Reversed(es)
  {
    if es != [] {
      assert (es + [e])[1..] == es[1..] + [e];
      ReversedPush(es[1..], e);
    }
  }

  lemma {:induction false} WordsLength(es: seq<Entry>)
    ensures |Words(es)| == 2 * |es|
  {
    if es != [] {
      WordsLength(es[1..]);
    }
  }

  lemma {:induction false} ReversedLength(es: seq<Entry>)
    ensures |Reversed(es)| == |es|
  {
    if es != [] {
      ReversedLength(es[1..]);
    }
  }

  /** The first k entries are on the stack. */
  ghost predicate EntriesPushed(a: seq<nat>, b: seq<nat>, p: nat, es: seq<Entry>, k: nat)
    requires k <= |es|
  {
    Pushed(a, b, p, Words(Reversed(es[..k])))
  }

  method PushEntry(mem: array<nat>, p: nat, key: nat, value: nat, ghost a: seq<nat>, ghost es: seq<Entry>, ghost k: nat)
    returns (q: nat)
    requires 2 <= p <= mem.Length && k < |es| && es[k] == Entry(key, value) && EntriesPushed(a, mem[..], p, es, k)
    modifies mem
    ensures q == p - 2 && EntriesPushed(a, mem[..], q, es, k + 1)
  {
    hide Words, Reversed, Pushed;
    ghost var b := mem[..];
    q := FillAuxvEntry(mem, p, key, value);
    PushedMore(a, b, mem[..], q, [key, value], Words(Reversed(es[..k])));
    WordsOfPush(es[..k], es[k]);
    assert es[..k + 1] == es[..k] + [es[k]];
  }

  /** setup_auxvector */
  method SetupAuxvector(mem: array<nat>, stack: nat, info: AuxInfo) returns (p: nat)
    requires 12 <= stack <= mem.Length
    modifies mem
    ensures var words := Words(Reversed(AuxEntries(info)));
            p + |words| == stack && stack - p <= 12 && (stack - p) % 2 == 0 && Pushed(old(mem[..]), mem[..], p, words)
  {
    hide Pushed, Words, Reversed, EntriesPushed;
    ghost var a := mem[..];
    ghost var es := AuxEntries(info);
    p := stack;
    NoEntriesPushed(a, p, es);
    p := PushEntry(mem, p, AT_PAGESZ, PAGE_SIZE, a, es, 0);
    p := PushEntry(mem, p, AT_PHDR, info.phdr, a, es, 1);
    p := PushEntry(mem, p, AT_PHENT, PHDR_SIZE, a, es, 2);
    p := PushEntry(mem, p, AT_PHNUM, info.phnum, a, es, 3);
    p := PushEntry(mem, p, AT_EXECFN, info.execfn, a, es, 4);
    if info.entropy.Some? {
      p := PushEntry(mem, p, AT_RANDOM, info.entropy.value, a, es, 5);
    }
    AllEntriesPushed(a, mem[..], p, es);
  }

  lemma NoEntriesPushed(a: seq<nat>, p: nat, es: seq<Entry>)
    requires p <= |a|
    ensures EntriesPushed(a, a, p, es, 0)
  {
  }

  lemma AllEntriesPushed(a: seq<nat>, b: seq<nat>, p: nat, es: seq<Entry>)
    requires EntriesPushed(a, b, p, es, |es|)
    ensures Pushed(a, b, p, Words(Reversed(es))) && |Words(Reversed(es))| == 2 * |es|
  {
    assert es[..|es|] == es;
    WordsLength(Reversed(es));
    ReversedLength(es);
  }

  /** The loop that setup_envs and setup_arguments share: a terminator, then the pointers from the last to the first. */
  method PushVector(mem: array<nat>, stack: nat, values: seq<nat>) returns (p: nat)
    requires |values| + 1 <= stack <= mem.Length
    modifies mem
    ensures p == stack - |values| - 1 && Pushed(old(mem[..]), mem[..], p, values + [0])
  {
    hide Pushed;
    ghost var a := mem[..];
    p := FillEntry(mem, stack, 0);
    var idx := |values| - 1;
    assert values[idx + 1..] + [0] == [0];
    while idx >= 0
      invariant -1 <= idx < |values| && p == stack - 1 - (|values| - 1 - idx)
      invariant Pushed(a, mem[..], p, values[idx + 1..] + [0])
    {
      ghost var b := mem[..];
      p := FillEntry(mem, p, values[idx]);
      PushedMore(a, b, mem[..], p, [values[idx]], values[idx + 1..] + [0]);
      assert [values[idx]] + (values[idx + 1..] + [0]) == values[idx..] + [0];
      idx := idx - 1;
    }
    assert values[0..] == values;
  }

  /** setup_arguments: the vector, and the count below it. */
  method SetupArguments(mem: array<nat>, stack: nat, args: seq<nat>) returns (p: nat)
    requires |args| + 2 <= stack <= mem.Length
    modifies mem
    ensures p == stack - |args| - 2 && Pushed(old(mem[..]), mem[..], p, [|args|] + (args + [0]))
  {
    hide Pushed;
    ghost var a := mem[..];
    p := PushVector(mem, stack, args);
    ghost var b := mem[..];
    p := FillEntry(mem, p, |args|);
    PushedMore(a, b, mem[..], p, [|args|], args + [0]);
  }

  lemma MoreZeros(n: nat)
    ensures Zeros(0) + [0] == [0] && |Zeros(n)| == n
    ensures [0] + (Zeros(n) + [0]) == Zeros(n + 1) + [0]
  {
  }

  /** The end marker and the padding that make the final pointer 16-byte aligned. */
  method PushPadding(mem: array<nat>, stack: nat, count: nat) returns (p: nat)
    requires count + 1 <= stack <= mem.Length
    modifies mem
    ensures p == stack - 1 - count && Pushed(old(mem[..]), mem[..], p, Zeros(count) + [0])
  {
    hide Pushed, Zeros;
    ghost var a := mem[..];
    p := FillEntry(mem, stack, 0);
    MoreZeros(0);
    var pad := count;
    while pad != 0
      invariant 0 <= pad <= count && p == stack - 1 - (count - pad)
      invariant Pushed(a, mem[..], p, Zeros(count - pad) + [0])
    {
      ghost var b := mem[..];
      p := FillEntry(mem, p, 0);
      PushedMore(a, b, mem[..], p, [0], Zeros(count - pad) + [0]);
      MoreZeros(count - pad);
      pad := pad - 1;
    }
  }

  /** The end marker, the padding and the auxiliary vector. */
  method PushBottom(mem: array<nat>, top: nat, info: AuxInfo, pad: nat) returns (sp: nat)
    requires pad + 13 <= top <= mem.Length
    modifies mem
    ensures var words := Words(Reversed(AuxEntries(info)));
            sp + |words| + pad + 1 == top && |words| <= 12 && |words| % 2 == 0 &&
            Pushed(old(mem[..]), mem[..], sp, words + (Zeros(pad) + [0]))
  {
    hide Pushed, Words, Reversed, AuxEntries;
    ghost var a := mem[..];
    sp := PushPadding(mem, top, pad);
    ghost var b := mem[..];
    sp := SetupAuxvector(mem, sp, info);
    PushedMore(a, b, mem[..], sp, Words(Reversed(AuxEntries(info))), Zeros(pad) + [0]);
  }

  /**
   The stack part of elf_setup: top is the index of the word just above the stack, which
   begins on a page boundary and is assumed to be large enough.
   */
  method SetupStack(mem: array<nat>, top: nat, info: AuxInfo, args: seq<nat>, envs: seq<nat>) returns (sp: nat)
    requires top <= mem.Length && top * WORD_SIZE % PAGE_SIZE == 0 && |args| + |envs| + 18 <= top
    requires |args| < 0x8000_0000 && |envs| < 0x8000_0000
    modifies mem
    ensures var image := Image(args, envs, AuxEntries(info), Pad(top, |args|, |envs|));
            sp + |image| == top && Pushed(old(mem[..]), mem[..], sp, image)
    ensures sp * WORD_SIZE % STACK_ALIGNMENT == 0
    ensures 0 !in args && 0 !in envs ==>
              sp < mem.Length && ReadStack(mem[..], sp) == Process(|args|, args, envs, Reversed(AuxEntries(info)))
  {
    hide Pushed, Words, Reversed, AuxEntries, Zeros, ReadStack, LiesAt;
    ghost var a := mem[..];
    var pad := Pad(top, |args|, |envs|);
    ghost var words := Words(Reversed(AuxEntries(info)));
    sp := PushBottom(mem, top, info, pad);
    ghost var below := words + (Zeros(pad) + [0]);

    ghost var b := mem[..];
    sp := PushVector(mem, sp, envs);
    PushedMore(a, b, mem[..], sp, envs + [0], below);

    b := mem[..];
    sp := SetupArguments(mem, sp, args);
    PushedMore(a, b, mem[..], sp, [|args|] + (args + [0]), envs + [0] + below);
    ImageOfPushes(args, envs, words, pad);
    PaddingAligns(top, |args|, |envs|, |words|, sp);
    PushedLies(a, mem[..], sp, Image(args, envs, AuxEntries(info), pad));
    if 0 !in args && 0 !in envs {
      StackRoundTrip(mem[..], sp, args, envs, info, pad);
    }
  }

  lemma PushedLies(before: seq<nat>, after: seq<nat>, p: nat, words: seq<nat>)
    requires Pushed(before, after, p, words)
    ensures LiesAt(after, p, words) && |after| == |before|
  {
  }

  lemma ImageOfPushes(args: seq<nat>, envs: seq<nat>, words: seq<nat>, pad: nat)
    ensures [|args|] + (args + [0]) + (envs + [0] + (words + (Zeros(pad) + [0]))) ==
            [|args|] + args + [0] + envs + [0] + words + Zeros(pad) + [0]
    ensures |[|args|] + args + [0] + envs + [0] + words + Zeros(pad) + [0]| == |args| + |envs| + |words| + pad + 4
  {
  }

  /** The padding was computed before the other words were pushed, and still comes out right. */
  lemma PaddingAligns(top: nat, argc: nat, envc: nat, aux: nat, sp: nat)
    requires 0 < top && top * WORD_SIZE % PAGE_SIZE == 0 && aux % 2 == 0
    requires sp + (2 + argc) + (envc + 1) + aux + Pad(top, argc, envc) + 1 == top
    ensures sp * WORD_SIZE % STACK_ALIGNMENT == 0
  {
  }

  // ----- Reading -----

  /** A reader that collects the nonzero words from index i on, up to a zero word. */
  function ReadVector(mem: seq<nat>, i: nat): seq<nat>
    decreases |mem| - i
  {
    if i >= |mem| || mem[i] == 0 then [] else [mem[i]] + ReadVector(mem, i + 1)
  }

  /** A reader that collects key-value pairs up to a zero key. */
  function ReadEntries(mem: seq<nat>, i: nat): seq<Entry>
    decreases |mem| - i
  {
    if i + 1 >= |mem| || mem[i] == AT_NULL then [] else [Entry(mem[i], mem[i + 1])] + ReadEntries(mem, i + 2)
  }

  datatype Process = Process(argc: nat, argv: seq<nat>, envp: seq<nat>, auxv: seq<Entry>)

  /** What a started program finds: argc, argv up to NULL, envp up to NULL, the auxiliary vector. */
  function ReadStack(mem: seq<nat>, sp: nat): Process
    requires sp < |mem|
  {
    var argv := ReadVector(mem, sp + 1);
    var envAt := sp + 1 + |argv| + 1;
    var envp := ReadVector(mem, envAt);
    Process(mem[sp], argv, envp, ReadEntries(mem, envAt + |envp| + 1))
  }

  /** The words lie in memory from index i on. */
  ghost predicate LiesAt(mem: seq<nat>, i: nat, words: seq<nat>) {
    i + |words| <= |mem| && mem[i..i + |words|] == words
  }

  lemma LiesSplit(mem: seq<nat>, i: nat, s: seq<nat>, t: seq<nat>)
    requires LiesAt(mem, i, s + t)
    ensures LiesAt(mem, i, s) && LiesAt(mem, i + |s|, t)
  {
    assert mem[i..i + |s|] == (s + t)[..|s|];
    assert mem[i + |s|..i + |s| + |t|] == (s + t)[|s|..];
  }

  lemma {:induction false} VectorIsRead(mem: seq<nat>, i: nat, values: seq<nat>)
    requires LiesAt(mem, i, values + [0]) && 0 !in values
    ensures ReadVector(mem, i) == values
    decreases |values|
  {
    if values == [] {
      assert mem[i] == mem[i..i + 1][0];
    } else {
      assert values + [0] == [values[0]] + (values[1..] + [0]);
      LiesSplit(mem, i, [values[0]], values[1..] + [0]);
      assert mem[i] == mem[i..i + 1][0];
      VectorIsRead(mem, i + 1, values[1..]);
    }
  }

  lemma {:induction false} EntriesAreRead(mem: seq<nat>, i: nat, es: seq<Entry>)
    requires LiesAt(mem, i, Words(es) + [AT_NULL]) && forall e :: e in es ==> e.key != AT_NULL
    ensures ReadEntries(mem, i) == es
    decreases |es|
  {
    if es == [] {
      assert mem[i] == mem[i..i + 1][0];
    } else {
      assert Words(es) + [AT_NULL] == [es[0].key, es[0].value] + (Words(es[1..]) + [AT_NULL]);
      LiesSplit(mem, i, [es[0].key, es[0].value], Words(es[1..]) + [AT_NULL]);
      assert mem[i] == mem[i..i + 2][0] && mem[i + 1] == mem[i..i + 2][1];
      EntriesAreRead(mem, i + 2, es[1..]);
    }
  }

  lemma {:induction false} KeysOfReversed(es: seq<Entry>)
    requires forall e :: e in es ==> e.key != AT_NULL
    ensures forall e :: e in Reversed(es) ==> e.key != AT_NULL
    decreases |es|
  {
    if es != [] {
      KeysOfReversed(es[1..]);
    }
  }

  /**
   The round trip: a program that reads the stack upwards from the final stack pointer recovers
   the count, the arguments, the environment and every auxiliary entry, with nothing else.
   */
  lemma StackRoundTrip(mem: seq<nat>, sp: nat, args: seq<nat>, envs: seq<nat>, info: AuxInfo, pad: nat)
    requires LiesAt(mem, sp, Image(args, envs, AuxEntries(info), pad)) && 0 !in args && 0 !in envs
    ensures ReadStack(mem, sp) == Process(|args|, args, envs, Reversed(AuxEntries(info)))
  {
    hide Words, Reversed, ReadVector, ReadEntries, LiesAt;
    var entries := Reversed(AuxEntries(info));
    ImageOfPushes(args, envs, Words(entries), pad);
    LiesSplit(mem, sp, [|args|] + (args + [0]), envs + [0] + (Words(entries) + (Zeros(pad) + [0])));
    LiesSplit(mem, sp, [|args|], args + [0]);
    var envAt := sp + |args| + 2;
    LiesSplit(mem, envAt, envs + [0], Words(entries) + (Zeros(pad) + [0]));
    var auxAt := envAt + |envs| + 1;
    FirstOfZeros(pad);
    var rest := (Zeros(pad) + [0])[1..];
    assert Words(entries) + (Zeros(pad) + [0]) == (Words(entries) + [AT_NULL]) + rest;
    LiesSplit(mem, auxAt, Words(entries) + [AT_NULL], rest);
    CountIsRead(mem, sp, |args|);
    VectorIsRead(mem, sp + 1, args);
    VectorIsRead(mem, envAt, envs);
    KeysOfReversed(AuxEntries(info));
    EntriesAreRead(mem, auxAt, entries);
  }

  /** The value that a reader of the vector finds for a key: that of its first entry. */
  function ValueOfKey(es: seq<Entry>, key: nat): Option<nat> {
    if es == [] then None else if es[0].key == key then Some(es[0].value) else ValueOfKey(es[1..], key)
  }

  /** Under each key of the auxiliary vector stands the value that it is for, and under no other key anything. */
  lemma KeysAreFound(a: AuxInfo, key: nat)
    ensures ValueOfKey(Reversed(AuxEntries(a)), key) ==
            if key == 3 then Some(a.phdr)
            else if key == 4 then Some(56)
            else if key == 5 then Some(a.phnum)
            else if key == 6 then Some(4096)
            else if key == 25 then a.entropy
            else if key == 31 then Some(a.execfn)
            else None
  {
    var front := [Entry(AT_EXECFN, a.execfn), Entry(AT_PHNUM, a.phnum), Entry(AT_PHENT, PHDR_SIZE),
                  Entry(AT_PHDR, a.phdr), Entry(AT_PAGESZ, PAGE_SIZE)];
    var basic := [Entry(AT_PAGESZ, PAGE_SIZE), Entry(AT_PHDR, a.phdr), Entry(AT_PHENT, PHDR_SIZE),
                  Entry(AT_PHNUM, a.phnum), Entry(AT_EXECFN, a.execfn)];
    FiveReversed(basic[0], basic[1], basic[2], basic[3], basic[4]);
    assert basic + [] == basic;
    if a.entropy.Some? {
      ReversedPush(basic, Entry(AT_RANDOM, a.entropy.value));
      assert ([Entry(AT_RANDOM, a.entropy.value)] + front)[1..] == front;
    }
    FiveFound(front[0], front[1], front[2], front[3], front[4], key);
  }

  lemma FiveReversed(a: Entry, b: Entry, c: Entry, d: Entry, e: Entry)
    ensures Reversed([a, b, c, d, e]) == [e, d, c, b, a]
  {
    ReversedPush([a, b, c, d], e);
    ReversedPush([a, b, c], d);
    ReversedPush([a, b], c);
    ReversedPush([a], b);
    ReversedPush([], a);
    assert [a, b, c, d] + [e] == [a, b, c, d, e] && [a, b, c] + [d] == [a, b, c, d];
    assert [a, b] + [c] == [a, b, c] && [a] + [b] == [a, b] && [] + [a] == [a];
  }

  lemma FiveFound(a: Entry, b: Entry, c: Entry, d: Entry, e: Entry, key: nat)
    ensures ValueOfKey([a, b, c, d, e], key) ==
            if a.key == key then Some(a.value)
            else if b.key == key then Some(b.value)
            else if c.key == key then Some(c.value)
            else if d.key == key then Some(d.value)
            else if e.key == key then Some(e.value)
            else None
  {
    FirstFound(a, [b, c, d, e], key);
    FirstFound(b, [c, d, e], key);
    FirstFound(c, [d, e], key);
    FirstFound(d, [e], key);
    FirstFound(e, [], key);
    assert [a] + [b, c, d, e] == [a, b, c, d, e] && [b] + [c, d, e] == [b, c, d, e];
    assert [c] + [d, e] == [c, d, e] && [d] + [e] == [d, e] && [e] + [] == [e];
  }

  lemma FirstFound(e: Entry, rest: seq<Entry>, key: nat)
    ensures ValueOfKey([e] + rest, key) == if e.key == key then Some(e.value) else ValueOfKey(rest, key)
  {
    assert ([e] + rest)[1..] == rest;
  }

  /** There is at most one word of padding. */
  lemma PaddingIsLeast(top: nat, argc: nat, envc: nat)
    requires 0 < top
    ensures Pad(top, argc, envc) <= 1
  {
  }

  lemma CountIsRead(mem: seq<nat>, i: nat, n: nat)
    requires LiesAt(mem, i, [n])
    ensures i < |mem| && mem[i] == n
  {
    assert mem[i] == mem[i..i + 1][0];
  }

  lemma FirstOfZeros(pad: nat)
    ensures Zeros(pad) + [0] == [0] + (Zeros(pad) + [0])[1..]
  {
  }
}
