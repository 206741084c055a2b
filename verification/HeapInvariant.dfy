/**
 What every call of the page allocator keeps: nodes are disjoint, every page of every
 node is metadata, free, held by a caller or part of the break, and the totals balance.
 */
module HeapInvariant {
  import opened Util
  import opened Pages
  import opened Bitmap
  import opened HeapSpec

  // ----- The invariant -----

  predicate NodeOk(n: NodeState) {
    0 < n.base && Aligned(n.base) && Aligned(n.size) && Aligned(n.meta) && 0 < n.meta < n.size &&
    n.base + n.size < U64 && n.PageCount() + WORD_BITS < INDEX_LIMIT
  }

  predicate Apart(m: NodeState, n: NodeState) {
    m.base + m.size <= n.base || n.base + n.size <= m.base
  }

  predicate NodesOk(nodes: seq<NodeState>) {
    (forall i :: 0 <= i < |nodes| ==> NodeOk(nodes[i])) &&
    (forall i, j :: 0 <= i < |nodes| && 0 <= j < |nodes| && i != j ==> Apart(nodes[i], nodes[j]))
  }

  /** Page q of the address space is one that node n can hand out. */
  predicate Owns(n: NodeState, q: nat) {
    n.FirstPage() + n.MetaPages() <= q < n.FirstPage() + n.PageCount()
  }

  predicate OwnedBySome(nodes: seq<NodeState>, q: nat) {
    exists i :: 0 <= i < |nodes| && Owns(nodes[i], q)
  }

  /** Page q is on the break's side of the boundary in the break node. */
  predicate InBreak(h: HeapState, n: NodeState, q: nat) {
    h.brk == Some(n.base) && q < h.brkTop / PAGE_SIZE
  }

  predicate IsFreeIn(n: NodeState, q: nat) {
    n.FirstPage() <= q && q - n.FirstPage() in n.free
  }

  /** A page is free in the bitmap exactly when nobody else has it; nobody holds a break page. */
  predicate PageAccounted(h: HeapState, n: NodeState, q: nat) {
    (IsFreeIn(n, q) <==> Owns(n, q) && q !in h.held && !InBreak(h, n, q)) &&
    (Owns(n, q) && q in h.held ==> !InBreak(h, n, q))
  }

  ghost predicate PagesAccounted(h: HeapState) {
    (forall i, q: nat :: 0 <= i < |h.nodes| ==> PageAccounted(h, h.nodes[i], q)) &&
    (forall q :: q in h.held ==> OwnedBySome(h.nodes, q))
  }

  predicate IsBreakNode(h: HeapState, n: NodeState) {
    h.brk == Some(n.base) && h.brkBase == n.base + n.meta && h.brkTop <= n.base + n.size
  }

  predicate BreakOk(h: HeapState) {
    h.brkBase <= h.curBrk <= h.brkTop && Aligned(h.brkBase) && Aligned(h.curBrk) && Aligned(h.brkTop) &&
    if h.brk == None then h.brkTop == 0
    else exists i :: 0 <= i < |h.nodes| && IsBreakNode(h, h.nodes[i])
  }

  function SumSize(nodes: seq<NodeState>): nat {
    if nodes == [] then 0 else SumSize(nodes[..|nodes| - 1]) + nodes[|nodes| - 1].size
  }

  function SumFree(nodes: seq<NodeState>): nat {
    if nodes == [] then 0 else SumFree(nodes[..|nodes| - 1]) + |nodes[|nodes| - 1].free|
  }

  /** Every byte of every node is accounted for once. */
  predicate Balanced(h: HeapState) {
    h.total == SumSize(h.nodes) &&
    h.alloc == PAGE_SIZE * |h.held| &&
    h.total == h.alloc + PAGE_SIZE * SumFree(h.nodes) + SumMeta(h.nodes) + (h.brkTop - h.brkBase)
  }

  ghost predicate Inv(h: HeapState) {
    NodesOk(h.nodes) && PagesAccounted(h) && BreakOk(h) && Balanced(h) &&
    h.total / PAGE_SIZE + WORD_BITS < INDEX_LIMIT
  }

  lemma InitialInv()
    ensures Inv(INITIAL)
  {
  }

  // ----- Sums over the node list -----

  lemma {:induction false} SumsOfConcat(a: seq<NodeState>, b: seq<NodeState>)
    ensures SumSize(a + b) == SumSize(a) + SumSize(b)
    ensures SumFree(a + b) == SumFree(a) + SumFree(b)
    ensures SumMeta(a + b) == SumMeta(a) + SumMeta(b)
    decreases |b|
  {
    if b == [] {
      assert a + b == a;
    } else {
      assert (a + b)[..|a + b| - 1] == a + b[..|b| - 1];
      SumsOfConcat(a, b[..|b| - 1]);
    }
  }

  lemma SumsOfSingle(n: NodeState)
    ensures SumSize([n]) == n.size && SumFree([n]) == |n.free| && SumMeta([n]) == n.meta
  {
    assert [n][..0] == [];
  }

  lemma SumsSplit(nodes: seq<NodeState>, i: nat)
    requires i < |nodes|
    ensures SumSize(nodes) == SumSize(nodes[..i] + nodes[i + 1..]) + nodes[i].size
    ensures SumFree(nodes) == SumFree(nodes[..i] + nodes[i + 1..]) + |nodes[i].free|
    ensures SumMeta(nodes) == SumMeta(nodes[..i] + nodes[i + 1..]) + nodes[i].meta
  {
    hide SumSize, SumFree, SumMeta;
    var before, n, after := nodes[..i], nodes[i], nodes[i + 1..];
    assert nodes == before + ([n] + after);
    SumsOfConcat(before, [n] + after);
    SumsOfConcat([n], after);
    SumsOfConcat(before, after);
    SumsOfSingle(n);
  }

  /** Replacing a node by one of the same size and metadata changes only the count of free pages. */
  lemma SumsOfUpdate(nodes: seq<NodeState>, i: nat, n: NodeState)
    requires i < |nodes| && n.size == nodes[i].size && n.meta == nodes[i].meta
    ensures SumSize(nodes[i := n]) == SumSize(nodes) && SumMeta(nodes[i := n]) == SumMeta(nodes)
    ensures SumFree(nodes[i := n]) == SumFree(nodes) - |nodes[i].free| + |n.free|
  {
    var nodes' := nodes[i := n];
    SumsSplit(nodes, i);
    SumsSplit(nodes', i);
    assert nodes'[..i] + nodes'[i + 1..] == nodes[..i] + nodes[i + 1..];
  }

  lemma SumsOfAppend(nodes: seq<NodeState>, n: NodeState)
    ensures SumSize(nodes + [n]) == SumSize(nodes) + n.size
    ensures SumFree(nodes + [n]) == SumFree(nodes) + |n.free|
    ensures SumMeta(nodes + [n]) == SumMeta(nodes) + n.meta
  {
    SumsOfConcat(nodes, [n]);
    SumsOfSingle(n);
  }

  // ----- Pages belong to one node -----

  lemma OwnerIsUnique(nodes: seq<NodeState>, i: nat, j: nat, q: nat)
    requires NodesOk(nodes) && i < |nodes| && j < |nodes|
    requires Owns(nodes[i], q) && nodes[j].FirstPage() <= q < nodes[j].FirstPage() + nodes[j].PageCount()
    ensures i == j
  {
    assert i != j ==> Apart(nodes[i], nodes[j]);
  }

  lemma BreakNode(h: HeapState) returns (i: nat)
    requires NodesOk(h.nodes) && BreakOk(h) && h.brk.Some?
    ensures i < |h.nodes| && IsBreakNode(h, h.nodes[i])
    ensures forall j :: 0 <= j < |h.nodes| && h.brk == Some(h.nodes[j].base) ==> j == i
  {
    i :| 0 <= i < |h.nodes| && IsBreakNode(h, h.nodes[i]);
    forall j | 0 <= j < |h.nodes| && h.brk == Some(h.nodes[j].base)
      ensures j == i
    {
      assert i != j ==> Apart(h.nodes[i], h.nodes[j]);
    }
  }

  // ----- sys_brk -----

  lemma AlignUpFacts(x: nat)
    ensures Aligned(AlignUp(x))
  {
  }

  lemma BrkKeeps(h: HeapState, brk: nat)
    requires Inv(h)
    ensures Inv(Brk(h, brk).0)
  {
    var h' := Brk(h, brk).0;
    AlignUpFacts(brk);
    assert forall i, q: nat :: 0 <= i < |h.nodes| ==>
        PageAccounted(h', h'.nodes[i], q) == PageAccounted(h, h.nodes[i], q);
    if h.brk.Some? {
      var i := BreakNode(h);
      assert IsBreakNode(h', h'.nodes[i]);
    }
  }

  // ----- Moving pages between a node's free set and the held set -----

  /** h' is h with another free set in node i, other pages held, and the matching amount allocated. */
  predicate SameShape(h: HeapState, h': HeapState, i: nat) {
    i < |h.nodes| && |h'.nodes| == |h.nodes| &&
    h'.nodes == h.nodes[i := h.nodes[i].(free := h'.nodes[i].free)] &&
    h'.brk == h.brk && h'.brkBase == h.brkBase && h'.curBrk == h.curBrk && h'.brkTop == h.brkTop &&
    h'.total == h.total
  }

  lemma SameShapeKeeps(h: HeapState, h': HeapState, i: nat)
    requires NodesOk(h.nodes) && BreakOk(h) && SameShape(h, h', i)
    ensures NodesOk(h'.nodes) && BreakOk(h')
    ensures forall q :: OwnedBySome(h.nodes, q) ==> OwnedBySome(h'.nodes, q)
    ensures SumSize(h'.nodes) == SumSize(h.nodes) && SumMeta(h'.nodes) == SumMeta(h.nodes)
    ensures SumFree(h'.nodes) == SumFree(h.nodes) - |h.nodes[i].free| + |h'.nodes[i].free|
  {
    if h.brk.Some? {
      var b := BreakNode(h);
      assert IsBreakNode(h', h'.nodes[b]);
    }
    forall q | OwnedBySome(h.nodes, q)
      ensures OwnedBySome(h'.nodes, q)
    {
      var j :| 0 <= j < |h.nodes| && Owns(h.nodes[j], q);
      assert Owns(h'.nodes[j], q);
    }
    SumsOfUpdate(h.nodes, i, h'.nodes[i]);
  }

  /** Outside the moved pages nothing changes, and each moved page is accounted for afterwards. */
  lemma MovePages(h: HeapState, h': HeapState, i: nat, moved: set<nat>)
    requires NodesOk(h.nodes) && BreakOk(h) && PagesAccounted(h) && SameShape(h, h', i)
    requires forall q :: q in moved ==> Owns(h.nodes[i], q) && PageAccounted(h', h'.nodes[i], q)
    requires forall q :: q !in moved ==> (q in h'.held <==> q in h.held)
    requires forall q: nat :: q !in moved ==> (IsFreeIn(h'.nodes[i], q) <==> IsFreeIn(h.nodes[i], q))
    ensures PagesAccounted(h')
  {
    SameShapeKeeps(h, h', i);
    forall j, q: nat | 0 <= j < |h'.nodes|
      ensures PageAccounted(h', h'.nodes[j], q)
    {
      hide OwnedBySome, NodeOk;
      assert PageAccounted(h, h.nodes[j], q);
      if q in moved && Owns(h.nodes[j], q) {
        OwnerIsUnique(h.nodes, i, j, q);
      }
    }
    forall q | q in h'.held
      ensures OwnedBySome(h'.nodes, q)
    {
      if q in moved {
        assert OwnedBySome(h.nodes, q);
      }
    }
  }

  // ----- sys_mmap -----

  lemma RegionPages(n: NodeState, start: nat, num: nat)
    requires NodeOk(n)
    ensures PagesOf(n.base + start * PAGE_SIZE, num * PAGE_SIZE) == Range(n.FirstPage() + start, num)
  {
  }

  /** Taking a fit out of a node's bitmap and handing it to the caller. */
  lemma ClaimPages(h: HeapState, h': HeapState, i: nat, start: nat, num: nat)
    requires NodesOk(h.nodes) && BreakOk(h) && PagesAccounted(h) && SameShape(h, h', i)
    requires Range(start, num) <= h.nodes[i].free
    requires h'.nodes[i].free == h.nodes[i].free - Range(start, num)
    requires h'.held == h.held + Range(h.nodes[i].FirstPage() + start, num)
    ensures PagesAccounted(h')
    ensures Range(h.nodes[i].FirstPage() + start, num) !! h.held
  {
    hide Range;
    var n := h.nodes[i];
    var moved := Range(n.FirstPage() + start, num);
    forall q | q in moved
      ensures Owns(n, q) && PageAccounted(h', h'.nodes[i], q) && q !in h.held
    {
      assert q - n.FirstPage() in Range(start, num);
      assert PageAccounted(h, n, q);
    }
    MovePages(h, h', i, moved);
  }

  lemma AllocInNodeKeeps(h: HeapState, len: nat, i: nat)
    requires Inv(h) && 0 < len && Aligned(len) && i < |h.nodes| && CanServe(len / PAGE_SIZE)(h.nodes[i])
    ensures Inv(AllocInNode(h, len, i).0)
  {
    hide FirstFit, Range, NodesOk, PagesAccounted, BreakOk, SumSize, SumMeta, SumFree, PagesOf;
    var h' := AllocInNode(h, len, i).0;
    var n, n' := h.nodes[i], h'.nodes[i];
    var num := len / PAGE_SIZE;
    FirstFitIsExact(n.free, n.PageCount(), num);
    var start := FirstFit(n.free, n.PageCount(), num).value;
    NodeIsOk(h.nodes, i);
    RegionPages(n, start, num);
    SameShapeKeeps(h, h', i);
    ClaimPages(h, h', i, start, num);
    SubsetSize(Range(start, num), n.free);
    assert |h'.held| == |h.held| + num;
  }

  lemma NodeIsOk(nodes: seq<NodeState>, i: nat)
    requires NodesOk(nodes) && i < |nodes|
    ensures NodeOk(nodes[i])
  {
  }

  /** Lowering the top of the break hands its last pages to the caller. */
  lemma ClaimBreakPages(h: HeapState, len: nat)
    requires NodesOk(h.nodes) && BreakOk(h) && PagesAccounted(h)
    requires 0 < len && Aligned(len) && h.curBrk + len <= h.brkTop
    ensures PagesAccounted(AllocFromBreak(h, len).0) && BreakOk(AllocFromBreak(h, len).0)
    ensures PagesOf(h.brkTop - len, len) !! h.held
  {
    hide PagesOf, Owns, PageAccounted, OwnedBySome;
    var h' := AllocFromBreak(h, len).0;
    var b := BreakNode(h);
    NodeIsOk(h.nodes, b);
    BreakPages(h, b, len);
    assert IsBreakNode(h', h'.nodes[b]);
    forall j, q: nat | 0 <= j < |h'.nodes|
      ensures PageAccounted(h', h'.nodes[j], q)
    {
      BreakPageAccounted(h, len, b, j, q);
    }
    forall q | q in PagesOf(h.brkTop - len, len)
      ensures OwnedBySome(h'.nodes, q) && q !in h.held
    {
      BreakPageAccounted(h, len, b, b, q);
    }
  }

  lemma BreakPageAccounted(h: HeapState, len: nat, b: nat, j: nat, q: nat)
    requires NodesOk(h.nodes) && BreakOk(h) && PagesAccounted(h) && b < |h.nodes| && IsBreakNode(h, h.nodes[b])
    requires Aligned(len) && h.curBrk + len <= h.brkTop && j < |h.nodes|
    ensures PageAccounted(AllocFromBreak(h, len).0, h.nodes[j], q)
    ensures q in PagesOf(h.brkTop - len, len) ==> OwnedBySome(h.nodes, q) && q !in h.held
  {
    hide PagesOf, BreakOk, NodeOk, Aligned;
    NodeIsOk(h.nodes, b);
    BreakPages(h, b, len);
    assert PageAccounted(h, h.nodes[j], q);
    assert PageAccounted(h, h.nodes[b], q);
    if q in PagesOf(h.brkTop - len, len) && Owns(h.nodes[j], q) {
      OwnerIsUnique(h.nodes, b, j, q);
    }
    assert j != b ==> Apart(h.nodes[b], h.nodes[j]);
  }

  lemma BreakPages(h: HeapState, b: nat, len: nat)
    requires b < |h.nodes| && IsBreakNode(h, h.nodes[b]) && NodeOk(h.nodes[b]) && BreakOk(h)
    requires Aligned(len) && h.curBrk + len <= h.brkTop
    ensures var n := h.nodes[b]; var h' := AllocFromBreak(h, len).0;
            forall q: nat ::
              (q in PagesOf(h.brkTop - len, len) <==> InBreak(h, n, q) && !InBreak(h', n, q)) &&
              (InBreak(h', n, q) ==> InBreak(h, n, q)) &&
              (q in PagesOf(h.brkTop - len, len) ==> Owns(n, q))
  {
  }

  lemma AllocFromBreakKeeps(h: HeapState, len: nat)
    requires Inv(h) && 0 < len && Aligned(len) && h.curBrk + len <= h.brkTop
    ensures Inv(AllocFromBreak(h, len).0)
  {
    hide NodesOk, PagesAccounted, Range;
    ClaimBreakPages(h, len);
  }

  lemma AllocKeeps(h: HeapState, len: nat)
    requires Inv(h) && 0 < len && Aligned(len)
    ensures Inv(Alloc(h, len).0)
  {
    hide Inv, CanServe, AllocInNode, AllocFromBreak;
    var i := FirstIndex(h.nodes, CanServe(len / PAGE_SIZE), 0);
    if i < |h.nodes| {
      AllocInNodeKeeps(h, len, i);
    } else if h.curBrk + len <= h.brkTop {
      AllocFromBreakKeeps(h, len);
    }
  }

  // ----- sys_munmap -----

  /** What munmap asks of its caller: the pages of a region inside a node are held from mmap. */
  predicate LegalMunmap(h: HeapState, addr: nat, len: nat) {
    ValidRegion(addr, len) && (exists i :: 0 <= i < |h.nodes| && h.nodes[i].Covers(addr, len)) ==>
      PagesOf(addr, len) <= h.held
  }

  lemma CoveredPages(n: NodeState, addr: nat, len: nat)
    requires NodeOk(n) && ValidRegion(addr, len) && n.Covers(addr, len)
    ensures PagesOf(addr, len) == Range(n.FirstPage() + (addr - n.base) / PAGE_SIZE, len / PAGE_SIZE)
    ensures forall q :: q in PagesOf(addr, len) ==> n.FirstPage() <= q < n.FirstPage() + n.PageCount()
  {
  }

  /** Every page of a legal unmap belongs to the node that covers the region, and is not free. */
  lemma UnmappedPages(h: HeapState, addr: nat, len: nat, i: nat)
    requires NodesOk(h.nodes) && PagesAccounted(h) && i < |h.nodes|
    requires ValidRegion(addr, len) && h.nodes[i].Covers(addr, len) && PagesOf(addr, len) <= h.held
    ensures forall q :: q in PagesOf(addr, len) ==> Owns(h.nodes[i], q) && !IsFreeIn(h.nodes[i], q)
    ensures Range((addr - h.nodes[i].base) / PAGE_SIZE, len / PAGE_SIZE) !! h.nodes[i].free
  {
    hide Range, PagesOf;
    var n := h.nodes[i];
    CoveredPages(n, addr, len);
    forall q | q in PagesOf(addr, len)
      ensures Owns(n, q) && !IsFreeIn(n, q)
    {
      assert OwnedBySome(h.nodes, q);
      var j :| 0 <= j < |h.nodes| && Owns(h.nodes[j], q);
      OwnerIsUnique(h.nodes, j, i, q);
      assert PageAccounted(h, n, q);
    }
    forall p | p in Range((addr - n.base) / PAGE_SIZE, len / PAGE_SIZE)
      ensures p !in n.free
    {
      assert n.FirstPage() + p in PagesOf(addr, len);
      assert IsFreeIn(n, n.FirstPage() + p) <==> p in n.free;
    }
  }

  lemma ReturnPages(h: HeapState, addr: nat, len: nat, i: nat)
    requires NodesOk(h.nodes) && BreakOk(h) && PagesAccounted(h) && i < |h.nodes|
    requires ValidRegion(addr, len) && h.nodes[i].Covers(addr, len) && PagesOf(addr, len) <= h.held
    ensures PagesAccounted(Free(h, addr, len, i))
  {
    hide Range, PagesOf;
    var h' := Free(h, addr, len, i);
    var n := h.nodes[i];
    CoveredPages(n, addr, len);
    UnmappedPages(h, addr, len, i);
    forall q | q in PagesOf(addr, len)
      ensures Owns(n, q) && PageAccounted(h', h'.nodes[i], q)
    {
      assert q - n.FirstPage() in Range((addr - n.base) / PAGE_SIZE, len / PAGE_SIZE);
      assert PageAccounted(h, n, q);
    }
    MovePages(h, h', i, PagesOf(addr, len));
  }

  lemma RegionSize(addr: nat, len: nat)
    requires Aligned(len)
    ensures PAGE_SIZE * |PagesOf(addr, len)| == len
  {
  }

  lemma FreeKeeps(h: HeapState, addr: nat, len: nat, i: nat)
    requires Inv(h) && i < |h.nodes|
    requires ValidRegion(addr, len) && h.nodes[i].Covers(addr, len) && PagesOf(addr, len) <= h.held
    ensures Inv(Free(h, addr, len, i))
  {
    hide NodesOk, PagesAccounted, BreakOk, SumSize, SumMeta, SumFree, PagesOf, Range, Owns, IsFreeIn;
    var h' := Free(h, addr, len, i);
    NodeIsOk(h.nodes, i);
    RegionSize(addr, len);
    SameShapeKeeps(h, h', i);
    ReturnPages(h, addr, len, i);
    UnmappedPages(h, addr, len, i);
    SubsetSize(PagesOf(addr, len), h.held);
    var pages := Range((addr - h.nodes[i].base) / PAGE_SIZE, len / PAGE_SIZE);
    assert |h.nodes[i].free + pages| == |h.nodes[i].free| + |pages|;
  }

  lemma MunmapKeeps(h: HeapState, addr: nat, len: nat)
    requires Inv(h) && LegalMunmap(h, addr, len)
    ensures Inv(Munmap(h, addr, len).0)
  {
    hide Inv, Free, PagesOf;
    var i := FirstIndex(h.nodes, CanCover(addr, len), 0);
    if ValidRegion(addr, len) && i < |h.nodes| {
      assert h.nodes[i].Covers(addr, len);
      FreeKeeps(h, addr, len, i);
    }
  }

  // ----- mmap_add_heap -----

  /**
   What mmap_add_heap asks of its caller: its assertions about the arguments and, when the heap
   is large enough to be added, memory that no other node covers, no second break heap, and page
   counts that stay within 32 bits.
   */
  predicate LegalAddHeap(h: HeapState, base: nat, size: nat, isBrk: bool) {
    0 < base && 0 < size && Aligned(base) && Aligned(size) && base + size < U64 &&
    size / PAGE_SIZE + WORD_BITS < INDEX_LIMIT &&
    (MetaSize(size) < size ==>
       (h.total + size) / PAGE_SIZE + WORD_BITS < INDEX_LIMIT && (isBrk ==> h.brk == None) &&
       forall i :: 0 <= i < |h.nodes| ==>
         base + size <= h.nodes[i].base || h.nodes[i].base + h.nodes[i].size <= base)
  }

  lemma MetaSizeFacts(size: nat)
    requires size / PAGE_SIZE + WORD_BITS < INDEX_LIMIT
    ensures Aligned(MetaSize(size)) && NODE_SIZE <= MetaSize(size)
  {
  }

  /** The state after a successful mmap_add_heap. */
  lemma AddedNode(h: HeapState, base: nat, size: nat, isBrk: bool)
    requires LegalAddHeap(h, base, size, isBrk) && MetaSize(size) < size
    ensures var meta := MetaSize(size);
            var n := NodeState(base, size, meta,
                               if isBrk then {} else Range(meta / PAGE_SIZE, size / PAGE_SIZE - meta / PAGE_SIZE));
            var h' := AddHeap(h, base, size, isBrk).0;
            NodeOk(n) && h'.nodes == h.nodes + [n] && h'.held == h.held && h'.alloc == h.alloc &&
            h'.total == h.total + size && AddHeap(h, base, size, isBrk).1.Ok? &&
            h'.brk == (if isBrk then Some(base) else h.brk) &&
            (isBrk ==> IsBreakNode(h', n) && h'.curBrk == h'.brkBase && h'.brkTop == base + size) &&
            (!isBrk ==> h'.brkBase == h.brkBase && h'.curBrk == h.curBrk && h'.brkTop == h.brkTop)
  {
    hide MetaSize, Range;
    MetaSizeFacts(size);
  }

  lemma AddedNodeIsApart(h: HeapState, base: nat, size: nat, isBrk: bool)
    requires NodesOk(h.nodes) && LegalAddHeap(h, base, size, isBrk) && MetaSize(size) < size
    ensures NodesOk(AddHeap(h, base, size, isBrk).0.nodes)
  {
    hide MetaSize, Range, NodeOk, AddHeap;
    AddedNode(h, base, size, isBrk);
  }

  lemma AddedPagesAccounted(h: HeapState, base: nat, size: nat, isBrk: bool)
    requires NodesOk(h.nodes) && BreakOk(h) && PagesAccounted(h)
    requires LegalAddHeap(h, base, size, isBrk) && MetaSize(size) < size
    ensures PagesAccounted(AddHeap(h, base, size, isBrk).0)
  {
    hide MetaSize, Range, AddHeap;
    AddedNode(h, base, size, isBrk);
    AddedNodeIsApart(h, base, size, isBrk);
    var h' := AddHeap(h, base, size, isBrk).0;
    var last := |h.nodes|;
    forall q | q in h'.held
      ensures OwnedBySome(h'.nodes, q) && !Owns(h'.nodes[last], q)
    {
      var j :| 0 <= j < |h.nodes| && Owns(h.nodes[j], q);
      assert h'.nodes[j] == h.nodes[j];
      NodeIsOk(h'.nodes, last);
      assert Apart(h'.nodes[last], h'.nodes[j]);
    }
    forall i, q: nat | 0 <= i < |h'.nodes|
      ensures PageAccounted(h', h'.nodes[i], q)
    {
      if i < last {
        OldPageAccounted(h, h', i, q);
      } else {
        assert h'.nodes[last].base == base;
      }
    }
  }

  lemma OldPageAccounted(h: HeapState, h': HeapState, i: nat, q: nat)
    requires i < |h.nodes| && PageAccounted(h, h.nodes[i], q) && NodesOk(h'.nodes)
    requires |h'.nodes| == |h.nodes| + 1 && h'.nodes[i] == h.nodes[i] && h'.held == h.held
    requires (h'.brk == h.brk && h'.brkTop == h.brkTop) || (h.brk == None && h'.brk == Some(h'.nodes[|h.nodes|].base))
    ensures PageAccounted(h', h'.nodes[i], q)
  {
    assert Apart(h'.nodes[i], h'.nodes[|h.nodes|]);
  }

  lemma AddedBreakOk(h: HeapState, base: nat, size: nat, isBrk: bool)
    requires BreakOk(h) && LegalAddHeap(h, base, size, isBrk) && MetaSize(size) < size
    ensures BreakOk(AddHeap(h, base, size, isBrk).0)
  {
    hide NodeOk, MetaSize, AddHeap, Range;
    AddedNode(h, base, size, isBrk);
    MetaSizeFacts(size);
    var h' := AddHeap(h, base, size, isBrk).0;
    if isBrk {
      assert IsBreakNode(h', h'.nodes[|h.nodes|]);
    } else if h.brk.Some? {
      var i :| 0 <= i < |h.nodes| && IsBreakNode(h, h.nodes[i]);
      assert IsBreakNode(h', h'.nodes[i]);
    }
  }

  lemma AddedBalance(h: HeapState, base: nat, size: nat, isBrk: bool)
    requires Balanced(h) && BreakOk(h) && LegalAddHeap(h, base, size, isBrk) && MetaSize(size) < size
    ensures Balanced(AddHeap(h, base, size, isBrk).0)
  {
    hide MetaSize, AddHeap, Range, SumSize, SumFree, SumMeta;
    AddedNode(h, base, size, isBrk);
    var n := AddHeap(h, base, size, isBrk).0.nodes[|h.nodes|];
    SumsOfAppend(h.nodes, n);
    if !isBrk {
      assert PAGE_SIZE * |n.free| == size - n.meta;
    } else {
      BreakStartsEmpty(h);
    }
  }

  lemma BreakStartsEmpty(h: HeapState)
    requires BreakOk(h) && h.brk == None
    ensures h.brkTop == 0 && h.brkBase == 0
  {
  }

  lemma AddHeapKeeps(h: HeapState, base: nat, size: nat, isBrk: bool)
    requires Inv(h) && LegalAddHeap(h, base, size, isBrk)
    ensures Inv(AddHeap(h, base, size, isBrk).0)
  {
    hide NodesOk, PagesAccounted, BreakOk, Balanced, MetaSize, AddHeap;
    if MetaSize(size) < size {
      AddedNode(h, base, size, isBrk);
      AddedNodeIsApart(h, base, size, isBrk);
      AddedPagesAccounted(h, base, size, isBrk);
      AddedBreakOk(h, base, size, isBrk);
      AddedBalance(h, base, size, isBrk);
    } else {
      RefusedAdd(h, base, size, isBrk);
    }
  }

  lemma RefusedAdd(h: HeapState, base: nat, size: nat, isBrk: bool)
    requires size / PAGE_SIZE + WORD_BITS < INDEX_LIMIT && MetaSize(size) >= size
    ensures AddHeap(h, base, size, isBrk) == (h, Err(ENOMEM))
  {
  }

  // ----- mmap_remove_heap -----

  lemma RemovedNode(h: HeapState, base: nat, size: nat) returns (i: nat)
    requires NodesOk(h.nodes) && PagesAccounted(h) && RemoveHeap(h, base, size).1.Ok?
    ensures i < |h.nodes| && h.nodes[i].base == base && h.nodes[i].size == size && h.brk != Some(base)
    ensures h.nodes[i].AllFree()
    ensures RemoveHeap(h, base, size).0 == h.(nodes := h.nodes[..i] + h.nodes[i + 1..], total := h.total - size)
    ensures forall q :: q in h.held ==> !Owns(h.nodes[i], q)
    ensures forall p :: p in h.nodes[i].free <==> h.nodes[i].MetaPages() <= p < h.nodes[i].PageCount()
  {
    i := FirstIndex(h.nodes, IsExactly(base, size), 0);
    var n := h.nodes[i];
    forall q | q in h.held
      ensures !Owns(n, q)
    {
      assert PageAccounted(h, n, q);
      assert Owns(n, q) ==> q - n.FirstPage() in n.free;
    }
    forall p: nat
      ensures p in n.free <==> n.MetaPages() <= p < n.PageCount()
    {
      assert PageAccounted(h, n, n.FirstPage() + p);
    }
  }

  lemma RemoveHeapKeeps(h: HeapState, base: nat, size: nat)
    requires Inv(h)
    ensures Inv(RemoveHeap(h, base, size).0)
  {
    hide NodesOk, PagesAccounted, BreakOk, Balanced, RemoveHeap;
    if RemoveHeap(h, base, size).1.Ok? {
      var i := RemovedNode(h, base, size);
      RemovedPagesAccounted(h, RemoveHeap(h, base, size).0, i);
      RemovedBalance(h, RemoveHeap(h, base, size).0, i);
    } else {
      RefusedRemove(h, base, size);
    }
  }

  lemma RefusedRemove(h: HeapState, base: nat, size: nat)
    requires RemoveHeap(h, base, size).1.Err?
    ensures RemoveHeap(h, base, size).0 == h
  {
  }

  lemma RemovedBalance(h: HeapState, h': HeapState, i: nat)
    requires NodesOk(h.nodes) && Balanced(h) && i < |h.nodes|
    requires forall p :: p in h.nodes[i].free <==> h.nodes[i].MetaPages() <= p < h.nodes[i].PageCount()
    requires h' == h.(nodes := h.nodes[..i] + h.nodes[i + 1..], total := h.total - h.nodes[i].size)
    ensures Balanced(h')
  {
    hide SumSize, SumFree, SumMeta;
    var n := h.nodes[i];
    SumsSplit(h.nodes, i);
    NodeIsOk(h.nodes, i);
    assert n.free == Range(n.MetaPages(), n.PageCount() - n.MetaPages());
  }

  lemma RemovedPagesAccounted(h: HeapState, h': HeapState, i: nat)
    requires NodesOk(h.nodes) && PagesAccounted(h) && BreakOk(h) && i < |h.nodes| && h.brk != Some(h.nodes[i].base)
    requires forall q :: q in h.held ==> !Owns(h.nodes[i], q)
    requires h' == h.(nodes := h.nodes[..i] + h.nodes[i + 1..], total := h'.total)
    ensures NodesOk(h'.nodes) && PagesAccounted(h') && BreakOk(h')
  {
    hide NodeOk, Owns, IsFreeIn;
    forall j | 0 <= j < |h'.nodes|
      ensures h'.nodes[j] == h.nodes[if j < i then j else j + 1]
    {
    }
    assert NodesOk(h'.nodes);
    forall j, q: nat | 0 <= j < |h'.nodes|
      ensures PageAccounted(h', h'.nodes[j], q)
    {
      assert PageAccounted(h, h'.nodes[j], q);
    }
    forall q | q in h'.held
      ensures OwnedBySome(h'.nodes, q)
    {
      var j :| 0 <= j < |h.nodes| && Owns(h.nodes[j], q);
      assert Owns(h'.nodes[if j < i then j else j - 1], q);
    }
    if h.brk.Some? {
      var b := BreakNode(h);
      assert IsBreakNode(h', h'.nodes[if b < i then b else b - 1]);
    }
  }
}
