/**
 What each call of the page allocator answers and changes, in terms of addresses and pages only:
 the conditions and effects that the C code's callers see, stated apart from the specification
 functions that the class refines.
 */
module HeapAnswers {
  import opened Util
  import opened Pages
  import opened Bitmap
  import opened HeapSpec
  import opened HeapInvariant
  import opened HeapRuns

  // ----- sys_brk -----

  /**
   A request is rounded up to the next page boundary p.  Inside the break's bounds p becomes the break
   and is answered; otherwise, or if there is no such boundary in 64 bits, the old break is.
   */
  lemma BrkAnswers(h: HeapState, brk: nat, p: nat)
    requires Inv(h) && brk < U64 && p % 4096 == 0 && brk <= p < brk + 4096
    ensures var (h', r) := Brk(h, brk);
            r == (if p < U64 && h.brkBase <= p <= h.brkTop then p else h.curBrk) && h' == h.(curBrk := r)
  {
    hide NodesOk, PagesAccounted, Balanced;
    RoundsUp(brk, p);
    if h.brk.Some? {
      var i := BreakNode(h);
      NodeIsOk(h.nodes, i);
    }
  }

  ghost predicate BrkAnswered(h: HeapState, brk: nat, h': HeapState, r: nat) {
    h' == h.(curBrk := r) &&
    forall p: nat :: p % 4096 == 0 && brk <= p < brk + 4096 ==>
      r == if p < U64 && h.brkBase <= p <= h.brkTop then p else h.curBrk
  }

  lemma EveryBrkAnswers(h: HeapState, brk: nat)
    requires Inv(h)
    ensures brk < U64 ==> BrkAnswered(h, brk, Brk(h, brk).0, Brk(h, brk).1)
  {
    hide Inv, Brk;
    if brk < U64 {
      var next := NextBoundary(brk);
      BrkAnswers(h, brk, next);
      forall p: nat | p % 4096 == 0 && brk <= p < brk + 4096
        ensures p == next
      {
        OneBoundary(brk, p, next);
      }
    }
  }

  lemma NextBoundary(x: nat) returns (p: nat)
    ensures p % 4096 == 0 && x <= p < x + 4096
  {
    p := x / 4096 * 4096;
    if p < x {
      p := p + 4096;
    }
  }

  lemma OneBoundary(x: nat, p: nat, q: nat)
    requires p % 4096 == 0 && x <= p < x + 4096
    requires q % 4096 == 0 && x <= q < x + 4096
    ensures p == q
  {
  }

  lemma RoundsUp(x: nat, p: nat)
    requires x < U64 && p % 4096 == 0 && x <= p < x + 4096
    ensures AlignUp(x) == if p < U64 then p else 0
  {
    if p < U64 {
      assert p <= x + 4095 < p + 4096;
      assert p <= U64 - 4096;
    }
  }

  // ----- sys_mmap -----

  /** Page q of the address space lies in the region. */
  predicate PageIn(q: int, addr: nat, len: nat) {
    addr <= q * 4096 < addr + len
  }

  lemma PagesOfRegion(addr: nat, len: nat, q: nat)
    requires addr % 4096 == 0 && len % 4096 == 0
    ensures q in PagesOf(addr, len) <==> PageIn(q, addr, len)
  {
  }

  lemma RegionPagesAre(addr: nat, len: nat)
    requires addr % 4096 == 0 && len % 4096 == 0
    ensures forall q :: q in PagesOf(addr, len) <==> q >= 0 && PageIn(q, addr, len)
  {
    hide PagesOf;
    forall q: nat
      ensures q in PagesOf(addr, len) <==> PageIn(q, addr, len)
    {
      PagesOfRegion(addr, len, q);
    }
  }

  /** The held pages after those of a region are added. */
  ghost predicate Holds(h: HeapState, h': HeapState, addr: nat, len: nat) {
    forall q: nat :: q in h'.held <==> q in h.held || PageIn(q, addr, len)
  }

  /** The num pages of node n from its page s on are all free. */
  ghost predicate FitsAt(n: NodeState, num: nat, s: nat) {
    (s + num) * 4096 <= n.size && forall k: nat :: s <= k < s + num ==> k in n.free
  }

  lemma FitsAtIff(n: NodeState, num: nat, s: nat)
    ensures FitsAt(n, num, s) <==> Fits(n.free, n.PageCount(), num, s)
  {
    assert forall k :: s <= k < s + num ==> k in Range(s, num);
  }

  lemma NoFitAt(n: NodeState, num: nat)
    requires forall t: nat :: !FitsAt(n, num, t)
    ensures !CanServe(num)(n)
  {
    hide Fits, FirstFit;
    forall t: nat
      ensures !Fits(n.free, n.PageCount(), num, t)
    {
      FitsAtIff(n, num, t);
    }
    NoFit(n.free, n.PageCount(), num);
  }

  lemma FirstFitAt(n: NodeState, num: nat, s: nat)
    requires FitsAt(n, num, s) && forall t: nat :: t < s ==> !FitsAt(n, num, t)
    ensures CanServe(num)(n) && FirstFit(n.free, n.PageCount(), num) == Some(s)
  {
    hide Fits, FirstFit;
    FitsAtIff(n, num, s);
    forall t: nat | t < s
      ensures !Fits(n.free, n.PageCount(), num, t)
    {
      FitsAtIff(n, num, t);
    }
    FirstFitIsUnique(n.free, n.PageCount(), num, s);
  }

  /** No node before the i-th has a long enough run of free pages. */
  ghost predicate NoneBefore(h: HeapState, num: nat, i: nat)
    requires i <= |h.nodes|
  {
    forall j, t: nat :: 0 <= j < i ==> !FitsAt(h.nodes[j], num, t)
  }

  lemma NoneServes(h: HeapState, num: nat, i: nat)
    requires i <= |h.nodes| && NoneBefore(h, num, i)
    ensures forall j :: 0 <= j < i ==> !CanServe(num)(h.nodes[j])
  {
    hide FitsAt;
    forall j | 0 <= j < i
      ensures !CanServe(num)(h.nodes[j])
    {
      NoFitAt(h.nodes[j], num);
    }
  }

  /** Node i is the first that can serve the request, and s its lowest start. */
  ghost predicate ServesFirst(h: HeapState, num: nat, i: nat, s: nat) {
    i < |h.nodes| && NoneBefore(h, num, i) && FitsAt(h.nodes[i], num, s) &&
    forall t: nat :: t < s ==> !FitsAt(h.nodes[i], num, t)
  }

  /** There is such a node and start unless no node has a fit at all. */
  lemma FirstServerExists(h: HeapState, num: nat)
    ensures NoneBefore(h, num, |h.nodes|) || exists i, s: nat :: 0 <= i && ServesFirst(h, num, i, s)
  {
    hide FitsAt, FirstFit, Fits;
    var i := FirstIndex(h.nodes, CanServe(num), 0);
    forall j, t: nat | 0 <= j < i
      ensures !FitsAt(h.nodes[j], num, t)
    {
      ServesIff(h.nodes[j], num);
    }
    if i < |h.nodes| {
      var n := h.nodes[i];
      FirstFitIsExact(n.free, n.PageCount(), num);
      var s := FirstFit(n.free, n.PageCount(), num).value;
      forall t: nat
        ensures FitsAt(n, num, t) <==> Fits(n.free, n.PageCount(), num, t)
      {
        FitsAtIff(n, num, t);
      }
      assert ServesFirst(h, num, i, s);
    }
  }

  /** An allocation comes from the lowest fit in the first node that has one. */
  lemma AllocFromFirst(h: HeapState, len: nat, i: nat, s: nat)
    requires Inv(h) && 0 < len && len % 4096 == 0 && ServesFirst(h, len / 4096, i, s)
    ensures var (h', r) := Alloc(h, len);
            r == Ok(h.nodes[i].base + s * 4096) && Holds(h, h', r.value, len) &&
            h' == h.(nodes := h.nodes[i := h.nodes[i].(free := h'.nodes[i].free)], alloc := h.alloc + len,
                     held := h'.held) &&
            forall k: nat :: k in h'.nodes[i].free <==> k in h.nodes[i].free && !(s <= k < s + len / 4096)
  {
    hide PagesAccounted, Balanced, BreakOk, FirstFit, PagesOf, FitsAt, NoneBefore;
    var num, n := len / 4096, h.nodes[i];
    FirstFitAt(n, num, s);
    NoneServes(h, num, i);
    FirstIndexIsUnique(h.nodes, CanServe(num), i);
    FitIsInTotal(h, len, i, s);
    NodeIsOk(h.nodes, i);
    RegionPagesAre(n.base + s * 4096, len);
  }

  lemma FitIsInTotal(h: HeapState, len: nat, i: nat, s: nat)
    requires Inv(h) && i < |h.nodes| && len % 4096 == 0 && FitsAt(h.nodes[i], len / 4096, s)
    ensures len <= h.total
  {
    hide PagesAccounted, NodesOk, BreakOk;
    NodeFitsTotal(h.nodes, i);
    assert len == len / 4096 * 4096;
  }

  /** Where no node has a fit, it comes from the top of the break, or there is no memory. */
  lemma AllocFromTop(h: HeapState, len: nat)
    requires Inv(h) && 0 < len && len % 4096 == 0 && NoneBefore(h, len / 4096, |h.nodes|)
    ensures var (h', r) := Alloc(h, len);
            if len <= h.brkTop - h.curBrk then
              r == Ok(h.brkTop - len) && Holds(h, h', r.value, len) &&
              h' == h.(brkTop := h.brkTop - len, alloc := h.alloc + len, held := h'.held)
            else r == Err(ENOMEM) && h' == h
  {
    hide NodesOk, PagesAccounted, Balanced, FirstFit, PagesOf, NoneBefore;
    NoneServes(h, len / 4096, |h.nodes|);
    FirstIndexIsUnique(h.nodes, CanServe(len / 4096), |h.nodes|);
    if len <= h.brkTop - h.curBrk {
      TopIsInTotal(h, len);
      RegionPagesAre(h.brkTop - len, len);
    }
  }

  lemma TopIsInTotal(h: HeapState, len: nat)
    requires Inv(h) && 0 < len <= h.brkTop - h.curBrk
    ensures len <= h.total
  {
    hide PagesAccounted;
    var b := BreakNode(h);
    NodeIsOk(h.nodes, b);
    NodeFitsTotal(h.nodes, b);
  }

  /**
   For every argument list: a private anonymous read-write mapping of whole pages at no given address
   is served exactly when some run of free pages, or the unused break, is long enough, and otherwise
   there is no memory; every other request is invalid.
   */
  lemma MmapAnswers(h: HeapState, addr: nat, len: nat, prot: nat, flags: nat, fd: int, off: nat)
    requires Inv(h)
    ensures var (h', r) := Mmap(h, MmapArgs(addr, len, prot, flags, fd, off));
            if addr == 0 && 0 < len && len % 4096 == 0 && prot == 3 && flags == 0x22 && fd == -1 && off == 0 then
              (r.Ok? <==> len <= GetStats(h).largestFree || len <= h.brkTop - h.curBrk) &&
              (r.Ok? ==> (h', r) == Alloc(h, len)) && (r.Err? ==> r == Err(ENOMEM) && h' == h)
            else h' == h && r == Err(EINVAL)
  {
    hide Inv, Alloc, GetStats;
    if 0 < len && len % 4096 == 0 {
      AllocSucceedsIff(h, len);
    }
  }

  // ----- sys_munmap -----

  /** Some node holds the whole region. */
  predicate InsideNode(n: NodeState, addr: nat, len: nat) {
    n.base <= addr && addr + len <= n.base + n.size
  }

  /** The node is the same but for its free pages. */
  predicate SameNode(m: NodeState, n: NodeState) {
    m.base == n.base && m.size == n.size && m.meta == n.meta
  }

  /** Node m' is node m with the pages of the region free as well, if they are the node's. */
  ghost predicate FreedIn(m': NodeState, m: NodeState, addr: nat, len: nat) {
    SameNode(m', m) &&
    forall k: nat :: k in m'.free <==>
      k in m.free || (InsideNode(m, addr, len) && addr <= m.base + k * 4096 < addr + len)
  }

  /**
   munmap succeeds exactly for a nonempty page-aligned region inside a node, whose pages it frees in
   that node and takes from the held ones; everything else stays.
   */
  lemma MunmapAnswers(h: HeapState, addr: nat, len: nat)
    requires Inv(h)
    ensures var (h', r) := Munmap(h, addr, len);
            r == (if addr != 0 && 0 < len && addr + len < U64 && addr % 4096 == 0 && len % 4096 == 0 &&
                     exists i :: 0 <= i < |h.nodes| && InsideNode(h.nodes[i], addr, len)
                  then Ok(()) else Err(EINVAL)) &&
            (r.Err? ==> h' == h) &&
            (r.Ok? ==>
               h' == h.(nodes := h'.nodes, held := h'.held, alloc := h.alloc - len) && |h'.nodes| == |h.nodes| &&
               (forall q: nat :: q in h'.held <==> q in h.held && !PageIn(q, addr, len)) &&
               forall j :: 0 <= j < |h.nodes| ==> FreedIn(h'.nodes[j], h.nodes[j], addr, len))
  {
    hide PagesAccounted, Balanced, BreakOk, Free, PagesOf, FreedIn;
    var i := FirstIndex(h.nodes, CanCover(addr, len), 0);
    if i < |h.nodes| && ValidRegion(addr, len) {
      FreeAnswers(h, addr, len, i);
    }
    forall j | 0 <= j < |h.nodes| && InsideNode(h.nodes[j], addr, len)
      ensures i < |h.nodes|
    {
      assert CanCover(addr, len)(h.nodes[j]);
    }
  }

  lemma FreeAnswers(h: HeapState, addr: nat, len: nat, i: nat)
    requires NodesOk(h.nodes) && i < |h.nodes| && h.nodes[i].Covers(addr, len) && ValidRegion(addr, len)
    ensures var h' := Free(h, addr, len, i);
            h' == h.(nodes := h'.nodes, held := h'.held, alloc := h.alloc - len) && |h'.nodes| == |h.nodes| &&
            (forall q: nat :: q in h'.held <==> q in h.held && !PageIn(q, addr, len)) &&
            forall j :: 0 <= j < |h.nodes| ==> FreedIn(h'.nodes[j], h.nodes[j], addr, len)
  {
    hide PagesOf, NodesOk, Range, FreedIn;
    RegionPagesAre(addr, len);
    NodeIsOk(h.nodes, i);
    var h' := Free(h, addr, len, i);
    forall j | 0 <= j < |h.nodes|
      ensures FreedIn(h'.nodes[j], h.nodes[j], addr, len)
    {
      if j == i {
        PagesAreFreed(h.nodes[i], addr, len);
      } else {
        if InsideNode(h.nodes[j], addr, len) {
          NodesMeet(h.nodes, j, i, addr);
        }
        NothingFreed(h.nodes[j], addr, len);
      }
    }
  }

  lemma PagesAreFreed(n: NodeState, addr: nat, len: nat)
    requires n.base % 4096 == 0 && InsideNode(n, addr, len) && addr % 4096 == 0 && len % 4096 == 0
    ensures FreedIn(n.(free := n.free + Range((addr - n.base) / PAGE_SIZE, len / PAGE_SIZE)), n, addr, len)
  {
    hide Range;
    var pages := Range((addr - n.base) / PAGE_SIZE, len / PAGE_SIZE);
    forall k: nat
      ensures k in pages <==> PageIn(k, addr - n.base, len)
    {
      OffsetInRange(addr - n.base, len, k);
    }
  }

  lemma NothingFreed(n: NodeState, addr: nat, len: nat)
    requires !InsideNode(n, addr, len)
    ensures FreedIn(n, n, addr, len)
  {
  }

  lemma OffsetInRange(offset: nat, len: nat, k: nat)
    requires offset % 4096 == 0 && len % 4096 == 0
    ensures k in Range(offset / PAGE_SIZE, len / PAGE_SIZE) <==> PageIn(k, offset, len)
  {
  }

  // ----- mmap_add_heap -----

  /** w words of 64 bits are the least that hold n bits. */
  predicate LeastWords(w: nat, n: nat) {
    64 * w >= n && (0 < w ==> 64 * (w - 1) < n)
  }

  /**
   The metadata is the least number of whole pages that holds the node structure of 56 bytes and both
   bitmaps: one bit for each page, and one bit for each word of those.
   */
  lemma MetaSizeIsLeast(size: nat, w1: nat, w2: nat)
    requires size / 4096 + 64 < 0x1_0000_0000 && LeastWords(w2, size / 4096) && LeastWords(w1, w2)
    ensures MetaSize(size) % 4096 == 0 && 56 + 8 * (w1 + w2) <= MetaSize(size) < 56 + 8 * (w1 + w2) + 4096
  {
    NumWordsIsLeast(size / 4096, w2);
    NumWordsIsLeast(w2, w1);
    hide NumWords;
    AlignUpIsLeast(56 + 8 * (w1 + w2));
  }

  lemma NumWordsIsLeast(n: nat, w: nat)
    requires n + 64 < 0x1_0000_0000 && LeastWords(w, n)
    ensures NumWords(n) == w <= n
  {
  }

  lemma AlignUpIsLeast(x: nat)
    requires x + 4096 < U64
    ensures AlignUp(x) % 4096 == 0 && x <= AlignUp(x) < x + 4096
  {
  }

  /**
   A heap is added exactly if its metadata leaves it a page.  Then its node comes last; an ordinary heap
   has all pages behind the metadata free, and a break heap has them as the empty break's room.
   */
  lemma AddHeapAnswers(h: HeapState, base: nat, size: nat, isBrk: bool, w1: nat, w2: nat)
    requires LegalAddHeap(h, base, size, isBrk) && LeastWords(w2, size / 4096) && LeastWords(w1, w2)
    ensures var (h', r) := AddHeap(h, base, size, isBrk);
            r == (if 56 + 8 * (w1 + w2) + 4096 <= size then Ok(()) else Err(ENOMEM)) && (r.Err? ==> h' == h) &&
            (r.Ok? ==>
               |h'.nodes| == |h.nodes| + 1 && h'.nodes[..|h.nodes|] == h.nodes && h'.total == h.total + size &&
               h'.alloc == h.alloc && h'.held == h.held &&
               var n := h'.nodes[|h.nodes|];
               n.base == base && n.size == size && n.meta == MetaSize(size) &&
               (forall k: nat :: k in n.free <==> !isBrk && n.meta <= k * 4096 < size) &&
               (h'.brk, h'.brkBase, h'.curBrk, h'.brkTop) ==
               if isBrk then (Some(base), base + n.meta, base + n.meta, base + size)
               else (h.brk, h.brkBase, h.curBrk, h.brkTop))
  {
    hide MetaSize, Range;
    MetaSizeIsLeast(size, w1, w2);
    LeavesPage(56 + 8 * (w1 + w2), MetaSize(size), size);
    var meta := MetaSize(size);
    forall k: nat | meta < size
      ensures k in Range(meta / PAGE_SIZE, size / PAGE_SIZE - meta / PAGE_SIZE) <==> meta <= k * 4096 < size
    {
      BehindMetadata(meta, size, k);
    }
  }

  lemma LeavesPage(bytes: nat, meta: nat, size: nat)
    requires meta % 4096 == 0 && size % 4096 == 0 && bytes <= meta < bytes + 4096
    ensures meta < size <==> bytes + 4096 <= size
  {
  }

  lemma BehindMetadata(meta: nat, size: nat, k: nat)
    requires meta % 4096 == 0 && size % 4096 == 0 && meta < size
    ensures k in Range(meta / PAGE_SIZE, size / PAGE_SIZE - meta / PAGE_SIZE) <==> meta <= k * 4096 < size
  {
  }

  // ----- mmap_remove_heap -----

  /** A removal takes out the one node it names, keeps the order of the others and touches nothing else. */
  lemma RemoveAnswers(h: HeapState, base: nat, size: nat, i: nat)
    requires Inv(h) && i < |h.nodes| && h.nodes[i].base == base && h.nodes[i].size == size
    ensures var (h', r) := RemoveHeap(h, base, size);
            r == (if h.brk == Some(base) then Err(EINVAL)
                  else if LivePageIn(h, h.nodes[i]) then Err(EBUSY) else Ok(())) &&
            (r.Err? ==> h' == h) &&
            (r.Ok? ==>
               |h'.nodes| == |h.nodes| - 1 && h' == h.(nodes := h'.nodes, total := h.total - size) &&
               forall j :: 0 <= j < |h'.nodes| ==> h'.nodes[j] == h.nodes[if j < i then j else j + 1])
  {
    hide PagesAccounted, Balanced, BreakOk, LivePageIn;
    ExactIsUnique(h, i);
    if h.brk != Some(base) {
      AllFreeMeansNoneHeld(h, i);
    }
  }

  // ----- mmap_heap_get_stats -----

  /**
   Each figure by itself: the sizes of all nodes; the pages held from mmap and the used break; the
   metadata; and the longest run of free pages of any node.
   */
  lemma StatsAnswer(h: HeapState, num: nat)
    requires Inv(h)
    ensures var s := GetStats(h);
            s.total == SumSize(h.nodes) && s.inUse == 4096 * |h.held| + (h.curBrk - h.brkBase) &&
            s.total == s.inUse + s.reserved + 4096 * SumFree(h.nodes) + (h.brkTop - h.curBrk) &&
            s.largestFree % 4096 == 0
    ensures 0 < num ==>
              (num * 4096 <= GetStats(h).largestFree <==>
               exists i, t: nat :: 0 <= i < |h.nodes| && FitsAt(h.nodes[i], num, t))
  {
    hide NodesOk, PagesAccounted, LargestRun, FirstFit, FitsAt;
    if 0 < num {
      LargestRunServes(h.nodes, num);
      forall i | 0 <= i < |h.nodes|
        ensures CanServe(num)(h.nodes[i]) <==> exists t: nat :: FitsAt(h.nodes[i], num, t)
      {
        ServesIff(h.nodes[i], num);
      }
    }
  }

  lemma ServesIff(n: NodeState, num: nat)
    ensures CanServe(num)(n) <==> exists t: nat :: FitsAt(n, num, t)
  {
    hide FitsAt, Fits, FirstFit;
    FirstFitIsExact(n.free, n.PageCount(), num);
    if CanServe(num)(n) {
      FitsAtIff(n, num, FirstFit(n.free, n.PageCount(), num).value);
    } else {
      forall t: nat
        ensures !FitsAt(n, num, t)
      {
        FitsAtIff(n, num, t);
      }
    }
  }
}
