/**
 What the page allocator promises: results about single calls in any state that
 keeps the invariant, and results about whole runs of calls from the empty heap.
 */
module HeapRuns {
  import opened Util
  import opened Pages
  import opened HeapSpec
  import opened HeapInvariant

  // ----- Runs -----

  datatype Call =
    | CallAddHeap(base: nat, size: nat, isBrk: bool)
    | CallMmap(args: MmapArgs)
    | CallMunmap(addr: nat, len: nat)
    | CallBrk(brk: nat)
    | CallRemoveHeap(base: nat, size: nat)

  /**
   What the callers of the allocator must respect; mmap and brk accept anything.  The ranges that
   is_mmap_node_free asserts against name no node, so that removing them is refused here.
   */
  predicate Legal(h: HeapState, c: Call) {
    match c
    case CallAddHeap(base, size, isBrk) => LegalAddHeap(h, base, size, isBrk)
    case CallMunmap(addr, len) => LegalMunmap(h, addr, len)
    case _ => true
  }

  function Step(h: HeapState, c: Call): HeapState
    requires Legal(h, c)
  {
    match c
    case CallAddHeap(base, size, isBrk) => AddHeap(h, base, size, isBrk).0
    case CallMmap(args) => Mmap(h, args).0
    case CallMunmap(addr, len) => Munmap(h, addr, len).0
    case CallBrk(brk) => Brk(h, brk).0
    case CallRemoveHeap(base, size) => RemoveHeap(h, base, size).0
  }

  predicate LegalRun(h: HeapState, calls: seq<Call>)
    decreases |calls|
  {
    calls == [] || (Legal(h, calls[0]) && LegalRun(Step(h, calls[0]), calls[1..]))
  }

  function Run(h: HeapState, calls: seq<Call>): HeapState
    requires LegalRun(h, calls)
    decreases |calls|
  {
    if calls == [] then h else Run(Step(h, calls[0]), calls[1..])
  }

  lemma StepKeeps(h: HeapState, c: Call)
    requires Inv(h) && Legal(h, c)
    ensures Inv(Step(h, c))
  {
    hide Inv, Alloc, Munmap, Brk, AddHeap, RemoveHeap, LegalMunmap, LegalAddHeap;
    match c {
      case CallAddHeap(base, size, isBrk) => AddHeapKeeps(h, base, size, isBrk);
      case CallMmap(args) => if Supported(args) { AllocKeeps(h, args.len); }
      case CallMunmap(addr, len) => MunmapKeeps(h, addr, len);
      case CallBrk(brk) => BrkKeeps(h, brk);
      case CallRemoveHeap(base, size) => RemoveHeapKeeps(h, base, size);
    }
  }

  /** Every state that a legal run reaches keeps the invariant. */
  lemma {:induction false} RunKeeps(h: HeapState, calls: seq<Call>)
    requires Inv(h) && LegalRun(h, calls)
    ensures Inv(Run(h, calls))
    decreases |calls|
  {
    hide Inv, Step, Legal;
    if calls != [] {
      StepKeeps(h, calls[0]);
      RunKeeps(Step(h, calls[0]), calls[1..]);
    }
  }

  lemma ReachableKeeps(calls: seq<Call>)
    requires LegalRun(INITIAL, calls)
    ensures Inv(Run(INITIAL, calls))
  {
    InitialInv();
    RunKeeps(INITIAL, calls);
  }

  /** In every reachable state each byte of each heap is counted once. */
  lemma ReachableBalance(calls: seq<Call>)
    requires LegalRun(INITIAL, calls)
    ensures var h := Run(INITIAL, calls);
            h.total == SumSize(h.nodes) && h.alloc == PAGE_SIZE * |h.held| &&
            h.total == h.alloc + PAGE_SIZE * SumFree(h.nodes) + SumMeta(h.nodes) + (h.brkTop - h.brkBase)
  {
    ReachableKeeps(calls);
  }

  // ----- Where live pages are -----

  /** Byte address x lies in page q. */
  predicate InPage(x: nat, q: nat) {
    x / PAGE_SIZE == q
  }

  /** A page held from mmap lies in some node, in no node's metadata, and not in the used break. */
  lemma HeldPageIsSafe(h: HeapState, q: nat, x: nat)
    requires Inv(h) && q in h.held && InPage(x, q)
    ensures exists i :: 0 <= i < |h.nodes| && h.nodes[i].Covers(x, 1)
    ensures forall i :: 0 <= i < |h.nodes| ==> !(h.nodes[i].base <= x < h.nodes[i].base + h.nodes[i].meta)
    ensures !(h.brkBase <= x < h.brkTop)
    ensures forall i :: 0 <= i < |h.nodes| ==> !IsFreeIn(h.nodes[i], q)
  {
    var i :| 0 <= i < |h.nodes| && Owns(h.nodes[i], q);
    HeldPageInNode(h, q, x, i);
  }

  lemma HeldPageInNode(h: HeapState, q: nat, x: nat, i: nat)
    requires Inv(h) && q in h.held && InPage(x, q) && i < |h.nodes| && Owns(h.nodes[i], q)
    ensures h.nodes[i].Covers(x, 1)
    ensures forall j :: 0 <= j < |h.nodes| ==> !(h.nodes[j].base <= x < h.nodes[j].base + h.nodes[j].meta)
    ensures !(h.brkBase <= x < h.brkTop)
    ensures forall j :: 0 <= j < |h.nodes| ==> !IsFreeIn(h.nodes[j], q)
  {
    hide Balanced;
    NodeIsOk(h.nodes, i);
    forall j | 0 <= j < |h.nodes|
      ensures !(h.nodes[j].base <= x < h.nodes[j].base + h.nodes[j].meta) && !IsFreeIn(h.nodes[j], q)
    {
      NodeIsOk(h.nodes, j);
      assert i != j ==> Apart(h.nodes[i], h.nodes[j]);
      assert PageAccounted(h, h.nodes[j], q);
    }
    if h.brk.Some? {
      var b := BreakNode(h);
      NodeIsOk(h.nodes, b);
      assert i != b ==> Apart(h.nodes[i], h.nodes[b]);
      assert PageAccounted(h, h.nodes[b], q);
    }
  }

  /** The same over every run: where the pages that callers hold are. */
  lemma ReachablePagesAreSafe(calls: seq<Call>, q: nat, x: nat)
    requires LegalRun(INITIAL, calls) && q in Run(INITIAL, calls).held && InPage(x, q)
    ensures var h := Run(INITIAL, calls);
            (exists i :: 0 <= i < |h.nodes| && h.nodes[i].Covers(x, 1)) &&
            (forall i :: 0 <= i < |h.nodes| ==>
               !(h.nodes[i].base <= x < h.nodes[i].base + h.nodes[i].meta) && !IsFreeIn(h.nodes[i], q)) &&
            !(h.brkBase <= x < h.brkTop)
  {
    ReachableKeeps(calls);
    HeldPageIsSafe(Run(INITIAL, calls), q, x);
  }

  // ----- mmap hands out fresh pages -----

  /** A successful mmap returns whole pages that nobody held, and adds exactly those to the held pages. */
  lemma MappingIsFresh(h: HeapState, a: MmapArgs)
    requires Inv(h)
    ensures Mmap(h, a).1.Ok? ==>
              var addr := Mmap(h, a).1.value;
              Supported(a) && Aligned(addr) && PagesOf(addr, a.len) !! h.held &&
              Mmap(h, a).0.held == h.held + PagesOf(addr, a.len) &&
              exists i :: 0 <= i < |h.nodes| && h.nodes[i].Covers(addr, a.len)
  {
    hide PagesAccounted, Balanced, Range, FirstFit, PagesOf, AllocInNode, AllocFromBreak;
    if Mmap(h, a).1.Ok? {
      var i := FirstIndex(h.nodes, CanServe(a.len / PAGE_SIZE), 0);
      if i < |h.nodes| {
        FreshInNode(h, a.len, i);
      } else {
        FreshFromBreak(h, a.len);
      }
    }
  }

  lemma FreshInNode(h: HeapState, len: nat, i: nat)
    requires Inv(h) && 0 < len && Aligned(len) && i < |h.nodes| && CanServe(len / PAGE_SIZE)(h.nodes[i])
    ensures var (h', r) := AllocInNode(h, len, i);
            r.Ok? && Aligned(r.value) && PagesOf(r.value, len) !! h.held &&
            h'.held == h.held + PagesOf(r.value, len) && h.nodes[i].Covers(r.value, len)
  {
    hide PagesAccounted, NodesOk, Balanced, BreakOk, Range, FirstFit, PagesOf;
    var n := h.nodes[i];
    var num := len / PAGE_SIZE;
    NodeIsOk(h.nodes, i);
    FirstFitIsExact(n.free, n.PageCount(), num);
    var start := FirstFit(n.free, n.PageCount(), num).value;
    RegionPages(n, start, num);
    UnheldFit(h, i, start, num);
  }

  lemma UnheldFit(h: HeapState, i: nat, start: nat, num: nat)
    requires PagesAccounted(h) && i < |h.nodes| && Range(start, num) <= h.nodes[i].free
    ensures Range(h.nodes[i].FirstPage() + start, num) !! h.held
  {
    hide Range, Owns, InBreak;
    var n := h.nodes[i];
    forall q | q in Range(n.FirstPage() + start, num)
      ensures q !in h.held
    {
      assert q - n.FirstPage() in Range(start, num);
      assert PageAccounted(h, n, q);
    }
  }

  lemma FreshFromBreak(h: HeapState, len: nat)
    requires Inv(h) && 0 < len && Aligned(len) && h.curBrk + len <= h.brkTop
    ensures var (h', r) := AllocFromBreak(h, len);
            r.Ok? && Aligned(r.value) && PagesOf(r.value, len) !! h.held &&
            h'.held == h.held + PagesOf(r.value, len) &&
            exists i :: 0 <= i < |h.nodes| && h.nodes[i].Covers(r.value, len)
  {
    hide NodeOk, PagesAccounted, Balanced, PagesOf;
    ClaimBreakPages(h, len);
    var b := BreakNode(h);
    assert h.nodes[b].Covers(h.brkTop - len, len);
  }

  predicate Unmaps(c: Call, q: nat) {
    c.CallMunmap? && q in PagesOf(c.addr, c.len)
  }

  lemma StepHolds(h: HeapState, c: Call, q: nat)
    requires Inv(h) && Legal(h, c) && q in h.held && !Unmaps(c, q)
    ensures q in Step(h, c).held
  {
    hide Inv, PagesOf, FirstIndex;
  }

  /** Over any run, a held page stays held until some munmap names it. */
  lemma {:induction false} HeldUntilUnmapped(h: HeapState, calls: seq<Call>, q: nat)
    requires Inv(h) && LegalRun(h, calls) && q in h.held
    requires forall c :: c in calls ==> !Unmaps(c, q)
    ensures q in Run(h, calls).held
    decreases |calls|
  {
    hide Inv, Step, Legal, Unmaps;
    if calls != [] {
      StepHolds(h, calls[0], q);
      StepKeeps(h, calls[0]);
      HeldUntilUnmapped(Step(h, calls[0]), calls[1..], q);
    }
  }

  /** Every page that two mappings made during one run share was unmapped in between. */
  lemma MappingsAreDisjoint(h: HeapState, a: MmapArgs, calls: seq<Call>, b: MmapArgs)
    requires Inv(h) && Mmap(h, a).1.Ok? && LegalRun(Mmap(h, a).0, calls)
    requires Mmap(Run(Mmap(h, a).0, calls), b).1.Ok?
    ensures forall q :: q in PagesOf(Mmap(h, a).1.value, a.len) &&
                        q in PagesOf(Mmap(Run(Mmap(h, a).0, calls), b).1.value, b.len) ==>
                          exists c :: c in calls && Unmaps(c, q)
  {
    hide Inv, Mmap, PagesOf, Unmaps, Run, LegalRun;
    var h1 := Mmap(h, a).0;
    var h2 := Run(h1, calls);
    MappingIsFresh(h, a);
    MmapKeeps(h, a);
    RunKeeps(h1, calls);
    MappingIsFresh(h2, b);
    forall q | q in PagesOf(Mmap(h, a).1.value, a.len) && forall c :: c in calls ==> !Unmaps(c, q)
      ensures q in h2.held
    {
      HeldUntilUnmapped(h1, calls, q);
    }
  }

  lemma MmapKeeps(h: HeapState, a: MmapArgs)
    requires Inv(h)
    ensures Inv(Mmap(h, a).0)
  {
    StepKeeps(h, CallMmap(a));
  }

  // ----- When mmap succeeds -----

  lemma {:induction false} LargestRunServes(nodes: seq<NodeState>, num: nat)
    requires 0 < num
    ensures num <= LargestRun(nodes) <==> exists i :: 0 <= i < |nodes| && CanServe(num)(nodes[i])
  {
    hide FirstFit, LongestRun;
    if nodes != [] {
      var k := |nodes| - 1;
      LargestRunServes(nodes[..k], num);
      LongestRunIsExact(nodes[k].free, nodes[k].PageCount(), num);
      assert forall i :: 0 <= i < k ==> nodes[..k][i] == nodes[i];
    }
  }

  lemma {:induction false} NodeFitsTotal(nodes: seq<NodeState>, i: nat)
    requires i < |nodes|
    ensures nodes[i].size <= SumSize(nodes)
  {
    hide SumSize;
    SumsSplit(nodes, i);
  }

  /**
   For every positive whole number of pages, the allocation succeeds exactly when the largest
   free run reported by the statistics, or the unused top of the break, is big enough.  In
   particular the early comparison with the total size never refuses a request that fits.
   */
  lemma AllocSucceedsIff(h: HeapState, len: nat)
    requires Inv(h) && 0 < len && Aligned(len)
    ensures Alloc(h, len).1.Ok? <==> len <= GetStats(h).largestFree || len <= h.brkTop - h.curBrk
    ensures Alloc(h, len).1.Err? ==> Alloc(h, len) == (h, Err(ENOMEM))
  {
    hide NodesOk, PagesAccounted, LargestRun, FirstFit, SumSize, SumFree, SumMeta;
    var num := len / PAGE_SIZE;
    LargestRunServes(h.nodes, num);
    var i := FirstIndex(h.nodes, CanServe(num), 0);
    if i < |h.nodes| {
      NodeFitsTotal(h.nodes, i);
      FirstFitIsExact(h.nodes[i].free, h.nodes[i].PageCount(), num);
    }
  }

  /** Alone in its bitmap, the free tail of a node is found from its first page on, up to its length. */
  lemma TailFit(pages: nat, meta: nat, num: nat)
    requires meta <= pages && 0 < num
    ensures FirstFit(Range(meta, pages - meta), pages, num) == if num <= pages - meta then Some(meta) else None
    ensures FirstFit({}, pages, num) == None
  {
    var free := Range(meta, pages - meta);
    forall t: nat | t < meta || pages - meta < num
      ensures !Fits(free, pages, num, t)
    {
      assert t in Range(t, num);
    }
    forall t: nat
      ensures !Fits({}, pages, num, t)
    {
      assert t in Range(t, num);
    }
    NoFit({}, pages, num);
    if num <= pages - meta {
      FirstFitIsUnique(free, pages, num, meta);
    } else {
      NoFit(free, pages, num);
    }
  }

  /**
   The first allocation from the first heap: exactly what the metadata leaves can be had, from the
   bottom of an ordinary heap and from the top of a break heap.
   */
  lemma FirstHeapServes(base: nat, size: nat, isBrk: bool, len: nat)
    requires LegalAddHeap(INITIAL, base, size, isBrk) && 0 < len && Aligned(len)
    ensures var meta := MetaSize(size);
            Alloc(AddHeap(INITIAL, base, size, isBrk).0, len).1 ==
            if meta + len <= size then Ok(if isBrk then base + size - len else base + meta) else Err(ENOMEM)
  {
    hide MetaSize, Range, FirstFit, AddHeap, FirstIndex, PagesOf;
    MetaSizeFacts(size);
    var meta, num := MetaSize(size), len / PAGE_SIZE;
    if meta < size {
      var h := AddHeap(INITIAL, base, size, isBrk).0;
      AddedNode(INITIAL, base, size, isBrk);
      TailFit(size / PAGE_SIZE, meta / PAGE_SIZE, num);
      FirstIndexIsUnique(h.nodes, CanServe(num), if !isBrk && num <= size / PAGE_SIZE - meta / PAGE_SIZE then 0 else 1);
    } else {
      RefusedAdd(INITIAL, base, size, isBrk);
    }
  }

  /** The reported figures: what is neither in use nor reserved is free pages and break slack. */
  lemma StatsBalance(h: HeapState)
    requires Inv(h)
    ensures var s := GetStats(h);
            s.total - s.inUse - s.reserved == PAGE_SIZE * SumFree(h.nodes) + (h.brkTop - h.curBrk)
  {
  }

  // ----- munmap undoes mmap -----

  /** Two nodes with an address in common are one. */
  lemma NodesMeet(nodes: seq<NodeState>, i: nat, j: nat, addr: nat)
    requires NodesOk(nodes) && i < |nodes| && j < |nodes|
    requires nodes[i].base <= addr < nodes[i].base + nodes[i].size
    requires nodes[j].base <= addr < nodes[j].base + nodes[j].size
    ensures i == j
  {
  }

  lemma CoverIsUnique(h: HeapState, i: nat, addr: nat, len: nat)
    requires NodesOk(h.nodes) && i < |h.nodes| && h.nodes[i].Covers(addr, len) && 0 < len
    ensures FirstIndex(h.nodes, CanCover(addr, len), 0) == i
  {
    var j := FirstIndex(h.nodes, CanCover(addr, len), 0);
    assert CanCover(addr, len)(h.nodes[i]);
    NodesMeet(h.nodes, j, i, addr);
  }

  predicate FreeInBreakNode(h: HeapState, q: nat) {
    exists i :: 0 <= i < |h.nodes| && h.brk == Some(h.nodes[i].base) && IsFreeIn(h.nodes[i], q)
  }

  /**
   Unmapping what mmap just returned: a mapping taken from a node's bitmap is undone exactly.
   A mapping taken from the break stays with the break node's bitmap, where the lowered top
   leaves it.
   */
  lemma MunmapUndoesMmap(h: HeapState, a: MmapArgs)
    requires Inv(h)
    ensures var (h1, r) := Mmap(h, a);
            r.Ok? ==>
              var (h2, done) := Munmap(h1, r.value, a.len);
              LegalMunmap(h1, r.value, a.len) && done == Ok(()) && h2.held == h.held && h2.alloc == h.alloc &&
              (h1.brkTop == h.brkTop ==> h2 == h) &&
              (h1.brkTop != h.brkTop ==>
                 h2.brkTop == h.brkTop - a.len &&
                 (forall q :: q in PagesOf(r.value, a.len) ==> FreeInBreakNode(h2, q)))
  {
    hide Inv, PagesOf, Mmap, Munmap, Alloc;
    var (h1, r) := Mmap(h, a);
    if r.Err? {
      return;
    }
    MappingIsFresh(h, a);
    MmapKeeps(h, a);
    var i := FirstIndex(h.nodes, CanServe(a.len / PAGE_SIZE), 0);
    MmapCases(h, a, i);
    if i < |h.nodes| {
      UndoInNode(h, a.len, i);
    } else {
      UndoFromBreak(h, a.len);
    }
  }

  lemma MmapCases(h: HeapState, a: MmapArgs, i: nat)
    requires Mmap(h, a).1.Ok? && i == FirstIndex(h.nodes, CanServe(a.len / PAGE_SIZE), 0)
    ensures Supported(a)
    ensures i < |h.nodes| ==> Mmap(h, a) == AllocInNode(h, a.len, i)
    ensures i == |h.nodes| ==> h.curBrk + a.len <= h.brkTop && Mmap(h, a) == AllocFromBreak(h, a.len)
  {
  }

  lemma MunmapIsFree(h: HeapState, addr: nat, len: nat, i: nat)
    requires Inv(h) && i < |h.nodes| && h.nodes[i].Covers(addr, len) && 0 < len && Aligned(len) && Aligned(addr)
    ensures Munmap(h, addr, len) == (Free(h, addr, len, i), Ok(()))
  {
    hide PagesAccounted, BreakOk, Balanced, PagesOf;
    CoverIsUnique(h, i, addr, len);
    NodeIsOk(h.nodes, i);
  }

  lemma UndoInNode(h: HeapState, len: nat, i: nat)
    requires Inv(h) && 0 < len && Aligned(len) && i < |h.nodes| && CanServe(len / PAGE_SIZE)(h.nodes[i])
    requires Inv(AllocInNode(h, len, i).0)
    ensures var (h1, r) := AllocInNode(h, len, i);
            h1.brkTop == h.brkTop && Munmap(h1, r.value, len) == (h, Ok(())) && PagesOf(r.value, len) <= h1.held
  {
    hide Inv, Range, FirstFit, PagesOf, AllocInNode, Munmap, Free, Given;
    var (h1, r) := AllocInNode(h, len, i);
    var n := h.nodes[i];
    FreshInNode(h, len, i);
    AllocInNodeShape(h, len, i);
    MunmapIsFree(h1, r.value, len, i);
    FreeIsGiven(h1, r.value, len, i);
    GivenUndoesTaken(h, i, Range((r.value - n.base) / PAGE_SIZE, len / PAGE_SIZE), PagesOf(r.value, len), len);
  }

  lemma TakenAndGivenBack(a: set<nat>, b: set<nat>)
    ensures b <= a ==> a - b + b == a
    ensures b !! a ==> a + b - b == a
  {
  }

  /** Pages leave node i's free set and join the held set; and the reverse. */
  function Taken(h: HeapState, i: nat, pages: set<nat>, region: set<nat>, len: nat): HeapState
    requires i < |h.nodes|
  {
    h.(nodes := h.nodes[i := h.nodes[i].(free := h.nodes[i].free - pages)], alloc := h.alloc + len,
       held := h.held + region)
  }

  function Given(h: HeapState, i: nat, pages: set<nat>, region: set<nat>, len: nat): HeapState
    requires i < |h.nodes|
  {
    h.(nodes := h.nodes[i := h.nodes[i].(free := h.nodes[i].free + pages)], alloc := h.alloc - len,
       held := h.held - region)
  }

  lemma GivenUndoesTaken(h: HeapState, i: nat, pages: set<nat>, region: set<nat>, len: nat)
    requires i < |h.nodes| && pages <= h.nodes[i].free && region !! h.held
    ensures Given(Taken(h, i, pages, region, len), i, pages, region, len) == h
  {
    TakenAndGivenBack(h.nodes[i].free, pages);
    TakenAndGivenBack(h.held, region);
    UpdatedAndPutBack(h.nodes, i, h.nodes[i].(free := h.nodes[i].free - pages));
  }

  lemma UpdatedAndPutBack(nodes: seq<NodeState>, i: nat, n: NodeState)
    requires i < |nodes|
    ensures nodes[i := n][i := nodes[i]] == nodes
  {
  }

  lemma FreeIsGiven(h: HeapState, addr: nat, len: nat, i: nat)
    requires i < |h.nodes| && h.nodes[i].Covers(addr, len)
    ensures Free(h, addr, len, i) ==
            Given(h, i, Range((addr - h.nodes[i].base) / PAGE_SIZE, len / PAGE_SIZE), PagesOf(addr, len), len)
  {
    hide Range, PagesOf;
  }

  lemma AllocInNodeShape(h: HeapState, len: nat, i: nat)
    requires i < |h.nodes| && CanServe(len / PAGE_SIZE)(h.nodes[i])
    ensures var (h1, r) := AllocInNode(h, len, i);
            var n := h.nodes[i];
            r.Ok? && n.base <= r.value && (r.value - n.base) % PAGE_SIZE == 0 &&
            var pages := Range((r.value - n.base) / PAGE_SIZE, len / PAGE_SIZE);
            pages <= n.free && h1 == Taken(h, i, pages, PagesOf(r.value, len), len)
  {
    hide FirstFit, PagesOf, Range;
    var n := h.nodes[i];
    FirstFitIsExact(n.free, n.PageCount(), len / PAGE_SIZE);
    var start := FirstFit(n.free, n.PageCount(), len / PAGE_SIZE).value;
    assert (n.base + start * PAGE_SIZE - n.base) / PAGE_SIZE == start;
  }

  lemma UndoFromBreak(h: HeapState, len: nat)
    requires Inv(h) && 0 < len && Aligned(len) && h.curBrk + len <= h.brkTop
    requires Inv(AllocFromBreak(h, len).0)
    ensures var (h1, r) := AllocFromBreak(h, len);
            var (h2, done) := Munmap(h1, r.value, len);
            h1.brkTop != h.brkTop && done == Ok(()) && h2.held == h.held && h2.alloc == h.alloc &&
            h2.brkTop == h.brkTop - len && PagesOf(r.value, len) <= h1.held &&
            forall q :: q in PagesOf(r.value, len) ==> FreeInBreakNode(h2, q)
  {
    hide PagesAccounted, Balanced, PagesOf, Munmap, Range, NodeOk;
    var (h1, r) := AllocFromBreak(h, len);
    FreshFromBreak(h, len);
    var b := BreakNode(h);
    MunmapIsFree(h1, r.value, len, b);
    var h2 := Munmap(h1, r.value, len).0;
    assert h.held + PagesOf(r.value, len) - PagesOf(r.value, len) == h.held;
    NodeIsOk(h.nodes, b);
    CoveredPages(h.nodes[b], r.value, len);
    forall q | q in PagesOf(r.value, len)
      ensures h.brk == Some(h2.nodes[b].base) && IsFreeIn(h2.nodes[b], q)
    {
      assert q - h.nodes[b].FirstPage() in Range((r.value - h.nodes[b].base) / PAGE_SIZE, len / PAGE_SIZE);
    }
  }

  // ----- The boundary between the break and mmap -----

  lemma StepLowersTop(h: HeapState, c: Call)
    requires Inv(h) && Legal(h, c) && h.brk.Some?
    ensures Step(h, c).brk == h.brk && Step(h, c).brkBase == h.brkBase && Step(h, c).brkTop <= h.brkTop
  {
    hide Inv, PagesOf, FirstIndex, MetaSize, Range, AlignUp;
  }

  /** Once there is a break heap it stays the same one, its base is fixed and its top only falls. */
  lemma {:induction false} BreakTopNeverRises(h: HeapState, calls: seq<Call>)
    requires Inv(h) && LegalRun(h, calls) && h.brk.Some?
    ensures var h' := Run(h, calls);
            h'.brk == h.brk && h'.brkBase == h.brkBase && h'.brkTop <= h.brkTop &&
            h'.brkBase <= h'.curBrk <= h'.brkTop && Aligned(h'.curBrk) && Aligned(h'.brkTop)
    decreases |calls|
  {
    hide Step, Legal, NodesOk, PagesAccounted, Balanced;
    if calls != [] {
      StepLowersTop(h, calls[0]);
      StepKeeps(h, calls[0]);
      BreakTopNeverRises(Step(h, calls[0]), calls[1..]);
    }
  }

  /** In every reachable state no page below the top of the break is free in the break node's bitmap. */
  lemma NoFreePageInBreak(h: HeapState, i: nat, p: nat)
    requires Inv(h) && i < |h.nodes| && h.brk == Some(h.nodes[i].base) && p in h.nodes[i].free
    ensures h.brkTop <= h.nodes[i].base + p * PAGE_SIZE
  {
    hide Balanced;
    NodeIsOk(h.nodes, i);
    assert PageAccounted(h, h.nodes[i], h.nodes[i].FirstPage() + p);
  }

  // ----- mmap_remove_heap -----

  lemma ExactIsUnique(h: HeapState, i: nat)
    requires NodesOk(h.nodes) && i < |h.nodes|
    ensures FirstIndex(h.nodes, IsExactly(h.nodes[i].base, h.nodes[i].size), 0) == i
  {
    var j := FirstIndex(h.nodes, IsExactly(h.nodes[i].base, h.nodes[i].size), 0);
    assert IsExactly(h.nodes[i].base, h.nodes[i].size)(h.nodes[i]);
    NodesMeet(h.nodes, j, i, h.nodes[i].base);
  }

  predicate LivePageIn(h: HeapState, n: NodeState) {
    exists q :: q in h.held && Owns(n, q)
  }

  lemma AllFreeMeansNoneHeld(h: HeapState, i: nat)
    requires Inv(h) && i < |h.nodes| && h.brk != Some(h.nodes[i].base)
    ensures h.nodes[i].AllFree() <==> !LivePageIn(h, h.nodes[i])
  {
    hide Balanced, BreakOk;
    var n := h.nodes[i];
    forall k | n.MetaPages() <= k < n.PageCount()
      ensures k in n.free <==> n.FirstPage() + k !in h.held
    {
      assert PageAccounted(h, n, n.FirstPage() + k);
    }
    if n.AllFree() {
      forall q | q in h.held
        ensures !Owns(n, q)
      {
        assert PageAccounted(h, n, q);
        assert Owns(n, q) ==> q - n.FirstPage() in n.free;
      }
    } else {
      var k :| n.MetaPages() <= k < n.PageCount() && k !in n.free;
      assert Owns(n, n.FirstPage() + k);
    }
  }

  /** Removal succeeds exactly for a registered node that is not the break node and has no live page. */
  lemma RemoveSucceedsIff(h: HeapState, base: nat, size: nat)
    requires Inv(h)
    ensures RemoveHeap(h, base, size).1.Ok? <==>
            h.brk != Some(base) &&
            exists i :: 0 <= i < |h.nodes| && h.nodes[i].base == base && h.nodes[i].size == size &&
              !LivePageIn(h, h.nodes[i])
    ensures RemoveHeap(h, base, size).1 == Err(EBUSY) <==>
            h.brk != Some(base) &&
            exists i :: 0 <= i < |h.nodes| && h.nodes[i].base == base && h.nodes[i].size == size &&
              LivePageIn(h, h.nodes[i])
    ensures RemoveHeap(h, base, size).1.Err? ==> RemoveHeap(h, base, size).0 == h
  {
    hide NodeOk, PagesAccounted, Balanced, BreakOk, LivePageIn;
    forall i | 0 <= i < |h.nodes| && h.nodes[i].base == base && h.nodes[i].size == size
      ensures FirstIndex(h.nodes, IsExactly(base, size), 0) == i
      ensures h.brk != Some(base) ==> (h.nodes[i].AllFree() <==> !LivePageIn(h, h.nodes[i]))
    {
      ExactIsUnique(h, i);
      if h.brk != Some(base) {
        AllFreeMeansNoneHeld(h, i);
      }
    }
  }

  /** Adding a heap and removing it again restores the state exactly: the nodes, their order and the totals. */
  lemma RemoveUndoesAdd(h: HeapState, base: nat, size: nat)
    requires Inv(h) && LegalAddHeap(h, base, size, false)
    ensures AddHeap(h, base, size, false).1.Ok? ==>
              RemoveHeap(AddHeap(h, base, size, false).0, base, size) == (h, Ok(()))
  {
    hide NodeOk, PagesAccounted, Balanced, MetaSize, Range;
    if MetaSize(size) >= size {
      return;
    }
    var h' := AddHeap(h, base, size, false).0;
    if h.brk.Some? {
      var b := BreakNode(h);
      NodeIsOk(h.nodes, b);
    }
    AddedNode(h, base, size, false);
    AddedNodeIsApart(h, base, size, false);
    ExactIsUnique(h', |h.nodes|);
    var n := h'.nodes[|h.nodes|];
    assert n.AllFree();
    assert h'.nodes[..|h.nodes|] + h'.nodes[|h.nodes| + 1..] == h.nodes;
  }
}
