/**
 The page allocator of src/mmap.c: the node list, the break and the accounting as one
 object.  Every system call is proved to refine its function in HeapSpec.
 */
module Allocator {
  import opened Util
  import opened Bitmap
  import opened Pages
  import opened HeapSpec
  import opened HeapInvariant
  import opened HeapRuns
  import opened HeapAnswers
  import opened MmapNode
  import NodeList

  /** The objects in which a node keeps its bitmaps. */
  ghost function Arrays(n: Node): set<object> {
    {n.availBlocks, n.freePages}
  }

  ghost predicate Separate(nodes: seq<Node>) {
    forall i, j :: 0 <= i < |nodes| && 0 <= j < |nodes| && i != j ==> Arrays(nodes[i]) !! Arrays(nodes[j])
  }

  class Heap {
    const list: NodeList.List
    var brkNode: Node?
    var totalSize: nat
    var allocSize: nat
    var brkBase: nat
    var brkTop: nat
    var curBrk: nat
    /** The pages handed out by mmap and not yet unmapped. */
    ghost var held: set<nat>
    ghost var Repr: set<object>

    /** The object graph: a well-formed list of well-formed nodes that share no bitmap. */
    ghost predicate Wired()
      reads this, Repr
    {
      this in Repr && list in Repr &&
      (forall n :: n in list.nodes ==> n in Repr && Arrays(n) <= Repr) &&
      list.Valid() && Separate(list.nodes) &&
      (forall n :: n in list.nodes ==> n.Valid()) &&
      (brkNode != null ==> brkNode in list.nodes)
    }

    ghost function States(): (s: seq<NodeState>)
      requires Wired()
      reads this, Repr
      ensures |s| == |list.nodes|
      ensures forall i :: 0 <= i < |s| ==> s[i] == list.nodes[i].State()
    {
      StatesUpTo(|list.nodes|)
    }

    ghost function StatesUpTo(k: nat): (s: seq<NodeState>)
      requires Wired() && k <= |list.nodes|
      reads this, Repr
      ensures |s| == k
      ensures forall i :: 0 <= i < k ==> s[i] == list.nodes[i].State()
    {
      if k == 0 then []
      else
        var last := list.nodes[k - 1];
        assert last.availBlocks in Arrays(last) && last.freePages in Arrays(last);
        StatesUpTo(k - 1) + [last.State()]
    }

    ghost function View(): HeapState
      requires Wired()
      reads this, Repr
    {
      HeapState(States(), if brkNode == null then None else Some(brkNode.base), totalSize, allocSize,
                brkBase, brkTop, curBrk, held)
    }

    ghost predicate Valid()
      reads this, Repr
    {
      Wired() && Inv(View())
    }

    constructor ()
      ensures Valid() && fresh(Repr) && View() == INITIAL
    {
      var l := new NodeList.List();
      list := l;
      brkNode := null;
      totalSize, allocSize, brkBase, brkTop, curBrk := 0, 0, 0, 0, 0;
      held := {};
      Repr := {this, l};
      new;
      InitialInv();
    }

    /** sys_brk */
    method SysBrk(brk: nat) returns (r: nat)
      requires Valid()
      modifies Repr
      ensures Valid() && Repr == old(Repr)
      ensures (View(), r) == Brk(old(View()), brk)
      ensures brk < U64 ==> BrkAnswered(old(View()), brk, View(), r)
    {
      hide Inv, AlignUp, StatesUpTo, BrkAnswered;
      ghost var before := View();
      var newBrk := AlignUp(brk);
      if brkBase <= newBrk <= brkTop {
        curBrk := newBrk;
      }
      r := curBrk;
      assert States() == before.nodes;
      assert (View(), r) == Brk(before, brk);
      BrkKeeps(before, brk);
      EveryBrkAnswers(before, brk);
    }

    /** The state with some pages of node i marked free, or no longer free. */
    static ghost function Marked(h: HeapState, i: nat, pages: set<nat>, mark: bool): HeapState
      requires i < |h.nodes|
    {
      var n := h.nodes[i];
      h.(nodes := h.nodes[i := n.(free := if mark then n.free + pages else n.free - pages)])
    }

    lemma NodeView(i: nat)
      requires Wired() && i < |list.nodes|
      ensures |View().nodes| == |list.nodes| && list.nodes[i].Valid() && View().nodes[i] == list.nodes[i].State()
      ensures View().alloc == allocSize && View().held == held
      ensures this in Repr && Arrays(list.nodes[i]) <= Repr
    {
    }

    /** update_mmap_range applied to one node of the list: the other nodes keep their bitmaps. */
    method UpdateNode(node: Node, ghost i: nat, startBit: nat, numBits: nat, mark: bool)
      requires Wired() && i < |list.nodes| && node == list.nodes[i] && startBit + numBits <= node.PageCount()
      requires if mark then Range(startBit, numBits) !! node.Free() else Range(startBit, numBits) <= node.Free()
      modifies Arrays(node)
      ensures Wired()
      ensures View() == Marked(old(View()), i, Range(startBit, numBits), mark)
    {
      hide Indexed, IsSet, Range, StatesUpTo;
      node.UpdateRange(startBit, numBits, mark);
      forall j | 0 <= j < |list.nodes| && j != i
        ensures list.nodes[j].Valid() && list.nodes[j].State() == old(list.nodes[j].State())
      {
        assert Arrays(list.nodes[j]) !! Arrays(node);
      }
    }

    // ----- sys_mmap -----

    /** The search loop of alloc_mmap: the first node in list order with a long enough run. */
    method FindFit(numBits: nat) returns (node: Node?, startBit: nat, ghost i: nat)
      requires Wired() && 0 < numBits
      ensures i == FirstIndex(States(), CanServe(numBits), 0)
      ensures node == if i < |list.nodes| then list.nodes[i] else null
      ensures node != null ==> FirstFit(node.Free(), node.PageCount(), numBits) == Some(startBit)
    {
      hide Indexed, FirstFit, StatesUpTo;
      node, startBit, i := list.head, 0, 0;
      while node != null
        invariant i <= |list.nodes| && node == if i < |list.nodes| then list.nodes[i] else null
        invariant forall j :: 0 <= j < i ==> !CanServe(numBits)(States()[j])
        decreases |list.nodes| - i
      {
        var found;
        found, startBit := node.SearchFree(numBits);
        assert States()[i] == node.State();
        if found {
          break;
        }
        node := node.next;
        i := i + 1;
      }
      FirstIndexIsUnique(States(), CanServe(numBits), i);
    }

    /** alloc_mmap */
    method AllocMmap(len: nat) returns (r: Result<nat>)
      requires Valid() && 0 < len && Aligned(len)
      modifies Repr
      ensures Valid() && Repr == old(Repr)
      ensures (View(), r) == Alloc(old(View()), len)
    {
      hide Inv, FirstFit, StatesUpTo, Indexed, Range, PagesOf, CanServe, AllocInNode, AllocFromBreak;
      ghost var h := View();
      BreakBounds(h);
      AllocKeeps(h, len);
      if len > totalSize {
        return Err(ENOMEM);
      }
      var numBits := len / PAGE_SIZE;
      var node, startBit, i := FindFit(numBits);
      if node != null {
        r := TakeFromNode(len, node, startBit, i);
      } else if len <= brkTop - curBrk {
        r := TakeFromBreak(len);
      } else {
        r := Err(ENOMEM);
      }
    }

    lemma BreakBounds(h: HeapState)
      requires Inv(h)
      ensures h.brkBase <= h.curBrk <= h.brkTop && (h.curBrk < h.brkTop ==> h.brk.Some?)
    {
    }

    /** The accounting at the end of alloc_mmap and free_mmap. */
    method Record(alloc: nat, ghost pages: set<nat>)
      requires Wired()
      modifies this
      ensures Wired() && Repr == old(Repr) && View() == old(View()).(alloc := alloc, held := pages)
      ensures unchanged(`brkNode, `totalSize, `brkBase, `brkTop, `curBrk)
    {
      hide Indexed, StatesUpTo;
      ghost var states := States();
      allocSize := alloc;
      held := pages;
      assert States() == states;
    }

    static lemma AddressIsInside(h: HeapState, i: nat, startBit: nat, len: nat)
      requires Inv(h) && i < |h.nodes| && Aligned(len) && startBit + len / PAGE_SIZE <= h.nodes[i].PageCount()
      ensures var addr := h.nodes[i].base + startBit * PAGE_SIZE;
              Aligned(addr) && addr + len <= h.nodes[i].base + h.nodes[i].size
    {
      hide PagesAccounted, BreakOk, Balanced;
      NodeIsOk(h.nodes, i);
    }

    method TakeFromNode(len: nat, node: Node, startBit: nat, ghost i: nat) returns (r: Result<nat>)
      requires Valid() && 0 < len && Aligned(len) && i < |list.nodes| && node == list.nodes[i]
      requires FirstFit(node.Free(), node.PageCount(), len / PAGE_SIZE) == Some(startBit)
      modifies Repr
      ensures Wired() && Repr == old(Repr)
      ensures CanServe(len / PAGE_SIZE)(old(View()).nodes[i])
      ensures (View(), r) == AllocInNode(old(View()), len, i)
    {
      hide Inv, FirstFit, Range, PagesOf, View, Wired;
      NodeView(i);
      FirstFitIsExact(node.Free(), node.PageCount(), len / PAGE_SIZE);
      AddressIsInside(View(), i, startBit, len);
      UpdateNode(node, i, startBit, len / PAGE_SIZE, false);
      var addr := node.base + startBit * PAGE_SIZE;
      assert Aligned(addr) && node.base <= addr && addr + len <= node.base + node.size;
      Record(allocSize + len, held + PagesOf(addr, len));
      r := Ok(addr);
    }

    /** Some memory is stolen from the top of the break. */
    method TakeFromBreak(len: nat) returns (r: Result<nat>)
      requires Valid() && 0 < len && Aligned(len) && curBrk + len <= brkTop
      modifies Repr
      ensures Wired() && Repr == old(Repr)
      ensures (View(), r) == AllocFromBreak(old(View()), len)
    {
      hide Inv, StatesUpTo, Indexed, Range, PagesOf;
      ghost var h := View();
      BreakInsideNode(h, len);
      brkTop := brkTop - len;
      var startBit := (brkTop - brkNode.base) / PAGE_SIZE;
      var addr := brkNode.base + startBit * PAGE_SIZE;
      assert addr == brkTop;
      assert Aligned(addr) && brkNode.base <= addr && addr + len <= brkNode.base + brkNode.size;
      assert States() == h.nodes;
      Record(allocSize + len, held + PagesOf(addr, len));
      r := Ok(addr);
    }

    lemma BreakInsideNode(h: HeapState, len: nat)
      requires Wired() && h == View() && Inv(h) && 0 < len && Aligned(len) && h.curBrk + len <= h.brkTop
      ensures brkNode != null && brkNode.base <= h.brkTop - len && h.brkTop <= brkNode.base + brkNode.size
      ensures Aligned(brkNode.base) && Aligned(h.brkTop)
    {
      hide StatesUpTo, PagesAccounted, Balanced;
      var b := BreakNode(h);
      NodeIsOk(h.nodes, b);
      var k :| 0 <= k < |list.nodes| && list.nodes[k] == brkNode;
      assert h.nodes[k].base == brkNode.base;
    }

    /** sys_mmap */
    method SysMmap(a: MmapArgs) returns (r: Result<nat>)
      requires Valid()
      modifies Repr
      ensures Valid() && Repr == old(Repr)
      ensures (View(), r) == Mmap(old(View()), a)
      ensures var h := old(View());
              if a.addr == 0 && 0 < a.len && a.len % 4096 == 0 && a.prot == 3 && a.flags == 0x22 && a.fd == -1 &&
                 a.off == 0
              then (r.Ok? <==> a.len <= HeapSpec.GetStats(h).largestFree || a.len <= h.brkTop - h.curBrk) &&
                   (r.Err? ==> r == Err(ENOMEM) && View() == h)
              else r == Err(EINVAL) && View() == h
    {
      BreakBounds(View());
      MmapAnswers(View(), a.addr, a.len, a.prot, a.flags, a.fd, a.off);
      assert MmapArgs(a.addr, a.len, a.prot, a.flags, a.fd, a.off) == a;
      hide Valid, View, Alloc, Inv, HeapSpec.GetStats;
      if a.addr != 0 || a.len == 0 || !Aligned(a.len) || a.flags != MAP_ANONYMOUS_PRIVATE ||
         a.prot != PROT_READ_WRITE || a.fd != -1 || a.off != 0 {
        return Err(EINVAL);
      }
      r := AllocMmap(a.len);
    }

    // ----- sys_munmap -----

    /** The search loop of free_mmap. */
    method FindCovering(addr: nat, len: nat) returns (node: Node?, ghost i: nat)
      requires Wired()
      ensures i == FirstIndex(View().nodes, CanCover(addr, len), 0)
      ensures node == if i < |list.nodes| then list.nodes[i] else null
    {
      hide Indexed, StatesUpTo;
      node, i := list.head, 0;
      while node != null
        invariant i <= |list.nodes| && node == if i < |list.nodes| then list.nodes[i] else null
        invariant forall j :: 0 <= j < i ==> !CanCover(addr, len)(States()[j])
        decreases |list.nodes| - i
      {
        assert States()[i] == node.State();
        if node.base <= addr && addr + len <= node.base + node.size {
          break;
        }
        node := node.next;
        i := i + 1;
      }
      FirstIndexIsUnique(States(), CanCover(addr, len), i);
    }

    /** sys_munmap; free_mmap is the part after the argument checks. */
    method SysMunmap(addr: nat, len: nat) returns (r: Result<()>)
      requires Valid() && LegalMunmap(View(), addr, len)
      modifies Repr
      ensures Valid() && Repr == old(Repr)
      ensures (View(), r) == Munmap(old(View()), addr, len)
    {
      hide Inv, PagesOf, Free, View, Wired;
      ghost var h := View();
      MunmapKeeps(h, addr, len);
      if addr == 0 || len == 0 || addr + len >= U64 || !Aligned(addr) || !Aligned(len) {
        return Err(EINVAL);
      }
      var node, i := FindCovering(addr, len);
      if node == null {
        ListView();
        return Err(EINVAL);
      }
      NodeView(i);
      GiveBack(addr, len, node, i);
      r := Ok(());
    }

    lemma ListView()
      requires Wired()
      ensures |View().nodes| == |list.nodes|
    {
    }

    method GiveBack(addr: nat, len: nat, node: Node, ghost i: nat)
      requires Valid() && ValidRegion(addr, len) && i < |list.nodes| && node == list.nodes[i]
      requires View().nodes[i].Covers(addr, len) && PagesOf(addr, len) <= View().held
      modifies Repr
      ensures Wired() && Repr == old(Repr)
      ensures View() == HeapSpec.Free(old(View()), addr, len, i)
    {
      hide Inv, Range, PagesOf, View, Wired, Marked, HeapSpec.Free;
      NodeView(i);
      FreedPages(View(), addr, len, i);
      FreeIsMarked(View(), addr, len, i);
      var startBit := (addr - node.base) / PAGE_SIZE;
      UpdateNode(node, i, startBit, len / PAGE_SIZE, true);
      Record(allocSize - len, held - PagesOf(addr, len));
    }

    static lemma FreeIsMarked(h: HeapState, addr: nat, len: nat, i: nat)
      requires i < |h.nodes| && h.nodes[i].Covers(addr, len)
      ensures HeapSpec.Free(h, addr, len, i) ==
              Marked(h, i, Range((addr - h.nodes[i].base) / PAGE_SIZE, len / PAGE_SIZE), true)
              .(alloc := h.alloc - len, held := h.held - PagesOf(addr, len))
    {
      hide Range, PagesOf;
    }

    static lemma FreedPages(h: HeapState, addr: nat, len: nat, i: nat)
      requires Inv(h) && i < |h.nodes| && ValidRegion(addr, len) && h.nodes[i].Covers(addr, len)
      requires PagesOf(addr, len) <= h.held
      ensures var start := (addr - h.nodes[i].base) / PAGE_SIZE;
              start + len / PAGE_SIZE <= h.nodes[i].PageCount() &&
              Range(start, len / PAGE_SIZE) !! h.nodes[i].free
      ensures len <= h.alloc
    {
      hide PagesAccounted, BreakOk, PagesOf, Range;
      NodeIsOk(h.nodes, i);
      UnmappedPages(h, addr, len, i);
      RegionSize(addr, len);
      SubsetSize(PagesOf(addr, len), h.held);
    }

    // ----- mmap_add_heap, mmap_remove_heap -----

    /** mmap_add_heap: the node structure and its bitmaps occupy the heap's first pages. */
    method AddHeap(base: nat, size: nat, isBrk: bool) returns (r: Result<()>)
      requires Valid() && LegalAddHeap(View(), base, size, isBrk)
      modifies Repr
      ensures Valid() && fresh(Repr - old(Repr))
      ensures (View(), r) == HeapSpec.AddHeap(old(View()), base, size, isBrk)
    {
      hide Inv, MetaSize, Range, View, Wired, HeapSpec.AddHeap, WithBreak;
      ghost var h := View();
      BreakView();
      AddHeapKeeps(h, base, size, isBrk);
      MetaSizeFacts(size);
      var metaSizeAlign := MetaSize(size);
      if metaSizeAlign >= size {
        RefusedAdd(h, base, size, isBrk);
        return Err(ENOMEM);
      }
      AddIsLinked(h, base, size, isBrk);
      MetaSizeHolds(size);
      var node := Build(base, size, metaSizeAlign, isBrk);
      Link(node);
      if isBrk {
        StartBreak(node);
      }
      AddToTotal(size);
      r := Ok(());
    }

    /** The size that mmap_add_heap computes is the one its node needs. */
    static lemma MetaSizeHolds(size: nat)
      requires size / PAGE_SIZE + WORD_BITS < INDEX_LIMIT
      ensures HoldsBitmaps(MetaSize(size), NumWords(NumWords(size / PAGE_SIZE)), NumWords(size / PAGE_SIZE))
    {
      var w2 := NumWords(size / PAGE_SIZE);
      var w1 := NumWords(w2);
      assert LeastWords(w2, size / 4096) && LeastWords(w1, w2);
      MetaSizeIsLeast(size, w1, w2);
    }

    /** The node of a new heap: its pages after the metadata are free unless they go to the break. */
    static method Build(base: nat, size: nat, metaSize: nat, isBrk: bool) returns (node: Node)
      requires size / PAGE_SIZE + WORD_BITS < INDEX_LIMIT && metaSize < size && Aligned(metaSize) && Aligned(size)
      requires HoldsBitmaps(metaSize, NumWords(NumWords(size / PAGE_SIZE)), NumWords(size / PAGE_SIZE))
      ensures fresh(node) && fresh(Arrays(node)) && node.Valid()
      ensures var metaBits := metaSize / PAGE_SIZE;
              node.State() == NodeState(base, size, metaSize,
                                        if isBrk then {} else Range(metaBits, size / PAGE_SIZE - metaBits))
    {
      hide Indexed;
      node := new Node(base, size, metaSize);
      if !isBrk {
        var metaBits := metaSize / PAGE_SIZE;
        node.UpdateRange(metaBits, size / PAGE_SIZE - metaBits, true);
      }
    }

    lemma BreakView()
      requires Wired()
      ensures View().brk == None <==> brkNode == null
      ensures View().total == totalSize && this in Repr
    {
    }

    /** The new node joins the list. */
    method Link(node: Node)
      requires Wired() && node.Valid() && Arrays(node) !! Repr && node !in Repr
      modifies Repr, node
      ensures Wired() && node in list.nodes && Repr == old(Repr) + {node} + Arrays(node)
      ensures View() == old(View()).(nodes := old(View()).nodes + [old(node.State())])
      ensures unchanged(`brkNode, `totalSize)
    {
      hide Indexed, StatesUpTo, Separate, Node.State;
      ghost var states, nodes := States(), list.nodes;
      OtherArrays(node);
      list.Append(node);
      Repr := Repr + {node} + Arrays(node);
      SeparateAppend(nodes, node);
      forall k | 0 <= k < |nodes|
        ensures nodes[k] in Repr && Arrays(nodes[k]) <= Repr && nodes[k].Valid() && nodes[k].State() == states[k]
      {
      }
      assert States() == states + [node.State()];
    }

    lemma OtherArrays(node: Node)
      requires Wired() && Arrays(node) !! Repr
      ensures forall n :: n in list.nodes ==> Arrays(n) !! Arrays(node)
    {
      hide Indexed, StatesUpTo;
    }

    static lemma SeparateAppend(nodes: seq<Node>, node: Node)
      requires Separate(nodes) && forall n :: n in nodes ==> Arrays(n) !! Arrays(node)
      ensures Separate(nodes + [node])
    {
    }

    /** The free pages of a break heap become the program break. */
    method StartBreak(node: Node)
      requires Wired() && node in list.nodes
      modifies this
      ensures Wired() && Repr == old(Repr) && View() == WithBreak(old(View()), node.State())
      ensures totalSize == old(totalSize)
    {
      hide Indexed, StatesUpTo;
      ghost var states := States();
      brkNode := node;
      brkBase := node.base + node.metaSize;
      curBrk := node.base + node.metaSize;
      brkTop := node.base + node.size;
      assert States() == states;
    }

    method AddToTotal(size: int)
      requires Wired() && 0 <= totalSize + size
      modifies this
      ensures Wired() && Repr == old(Repr) && View() == old(View()).(total := old(totalSize) + size)
    {
      hide Indexed, StatesUpTo;
      ghost var states := States();
      totalSize := totalSize + size;
      assert States() == states;
    }

    static ghost function WithBreak(h: HeapState, n: NodeState): HeapState {
      h.(brk := Some(n.base), brkBase := n.base + n.meta, curBrk := n.base + n.meta, brkTop := n.base + n.size)
    }

    static lemma AddIsLinked(h: HeapState, base: nat, size: nat, isBrk: bool)
      requires LegalAddHeap(h, base, size, isBrk) && MetaSize(size) < size
      ensures var meta := MetaSize(size);
              var n := NodeState(base, size, meta,
                                 if isBrk then {} else Range(meta / PAGE_SIZE, size / PAGE_SIZE - meta / PAGE_SIZE));
              var linked := h.(nodes := h.nodes + [n]);
              HeapSpec.AddHeap(h, base, size, isBrk) ==
              ((if isBrk then WithBreak(linked, n) else linked).(total := h.total + size), Ok(()))
    {
      hide MetaSize, Range;
    }

    /** What is_mmap_node_free asserts about its arguments. */
    static predicate IsHeapRange(base: nat, size: nat) {
      size != 0 && Aligned(base) && Aligned(size) && base + size < U64
    }

    /** is_mmap_node_free: a registered node that does not back the break and has no page allocated. */
    method FindFreeNode(base: nat, size: nat) returns (r: Result<Node>, ghost i: nat)
      requires Valid() && IsHeapRange(base, size)
      ensures match FreeNode(View(), base, size)
              case Ok(k) => k == i < |list.nodes| && r == Ok(list.nodes[i]) && list.nodes[i].size == size
              case Err(e) => r == Err(e)
    {
      hide Inv, View, Wired;
      var node;
      node, i := FindExact(base, size);
      if node == null {
        ListView();
        return Err(EINVAL), i;
      }
      NodeView(i);
      ListView();
      NodeSizes(View(), i);
      BreakIsNode(i);
      if node == brkNode {
        return Err(EINVAL), i;
      }
      var busy := node.HasAllocatedPage();
      ghost var n := node.State();
      assert n.MetaPages() == node.metaSize / PAGE_SIZE && n.PageCount() == node.PageCount() && n.free == node.Free();
      assert busy <==> !n.AllFree();
      r := if busy then Err(EBUSY) else Ok(node);
    }

    static lemma NodeSizes(h: HeapState, i: nat)
      requires Inv(h) && i < |h.nodes|
      ensures Aligned(h.nodes[i].meta) && Aligned(h.nodes[i].size) && h.nodes[i].meta < h.nodes[i].size
    {
      NodeIsOk(h.nodes, i);
    }

    /** Comparing node pointers decides the same as comparing their base addresses. */
    lemma BreakIsNode(i: nat)
      requires Valid() && i < |list.nodes|
      ensures |View().nodes| == |list.nodes|
      ensures View().brk == Some(View().nodes[i].base) <==> brkNode == list.nodes[i]
    {
      hide StatesUpTo, PagesAccounted, Balanced, Indexed;
      var h := View();
      if h.brk == Some(h.nodes[i].base) {
        var k :| 0 <= k < |list.nodes| && list.nodes[k] == brkNode;
        var b := BreakNode(h);
        assert h.nodes[k].base == brkNode.base;
        assert k == b && i == b;
      }
    }

    method FindExact(base: nat, size: nat) returns (node: Node?, ghost i: nat)
      requires Wired()
      ensures i == FirstIndex(View().nodes, IsExactly(base, size), 0)
      ensures node == if i < |list.nodes| then list.nodes[i] else null
    {
      hide Indexed, StatesUpTo;
      node, i := list.head, 0;
      while node != null
        invariant i <= |list.nodes| && node == if i < |list.nodes| then list.nodes[i] else null
        invariant forall j :: 0 <= j < i ==> !IsExactly(base, size)(States()[j])
        decreases |list.nodes| - i
      {
        assert States()[i] == node.State();
        if base == node.base && size == node.size {
          break;
        }
        node := node.next;
        i := i + 1;
      }
      FirstIndexIsUnique(States(), IsExactly(base, size), i);
    }

    /** mmap_heap_is_free */
    method HeapIsFree(base: nat, size: nat) returns (r: Result<()>)
      requires Valid() && IsHeapRange(base, size)
      ensures r == match FreeNode(View(), base, size) case Ok(_) => Ok(()) case Err(e) => Err(e)
    {
      hide Inv, View, Wired;
      var found, i := FindFreeNode(base, size);
      r := match found case Ok(_) => Ok(()) case Err(e) => Err(e);
    }

    /** mmap_remove_heap */
    method RemoveHeap(base: nat, size: nat) returns (r: Result<()>)
      requires Valid() && IsHeapRange(base, size)
      modifies Repr
      ensures Valid() && Repr <= old(Repr)
      ensures (View(), r) == HeapSpec.RemoveHeap(old(View()), base, size)
    {
      hide Inv, View, Wired;
      RemoveHeapKeeps(View(), base, size);
      var found, i := FindFreeNode(base, size);
      if found.Err? {
        return Err(found.errno);
      }
      ListView();
      BreakView();
      BreakIsNode(i);
      NodeView(i);
      RemovedFits(View(), i);
      Unlink(found.value, i);
      AddToTotal(0 - size);
      r := Ok(());
    }

    static lemma RemovedFits(h: HeapState, i: nat)
      requires Inv(h) && i < |h.nodes|
      ensures h.nodes[i].size <= h.total
    {
      hide NodesOk, PagesAccounted, BreakOk;
      NodeFitsTotal(h.nodes, i);
    }

    /** The node leaves the list. */
    method Unlink(node: Node, ghost i: nat)
      requires Wired() && i < |list.nodes| && node == list.nodes[i] && node != brkNode
      modifies Repr
      ensures Wired() && Repr <= old(Repr)
      ensures View() == old(View()).(nodes := old(View()).nodes[..i] + old(View()).nodes[i + 1..])
      ensures unchanged(`brkNode, `totalSize)
    {
      hide Indexed, StatesUpTo, Separate;
      ghost var states, nodes := States(), list.nodes;
      SeparateRemove(nodes, i);
      list.Remove(node, i);
      forall k | 0 <= k < |nodes|
        ensures nodes[k].Valid() && nodes[k].State() == states[k] && nodes[k] in Repr && Arrays(nodes[k]) <= Repr
      {
      }
      forall n | n in list.nodes
        ensures n in nodes
      {
      }
      assert brkNode != null ==> brkNode in list.nodes;
      assert States() == states[..i] + states[i + 1..];
    }

    static lemma SeparateRemove(nodes: seq<Node>, i: nat)
      requires Separate(nodes) && i < |nodes|
      ensures Separate(nodes[..i] + nodes[i + 1..])
    {
      var rest := nodes[..i] + nodes[i + 1..];
      forall j, k | 0 <= j < |rest| && 0 <= k < |rest| && j != k
        ensures Arrays(rest[j]) !! Arrays(rest[k])
      {
        assert rest[j] == nodes[if j < i then j else j + 1] && rest[k] == nodes[if k < i then k else k + 1];
      }
    }

    // ----- mmap_heap_get_stats -----

    /** The statistics of one node more. */
    static lemma OneNodeMore(nodes: seq<NodeState>, i: nat)
      requires i < |nodes|
      ensures SumMeta(nodes[..i + 1]) == SumMeta(nodes[..i]) + nodes[i].meta
      ensures LargestRun(nodes[..i + 1]) ==
              Max(LargestRun(nodes[..i]), LongestRun(nodes[i].free, nodes[i].PageCount()))
    {
      hide LongestRun;
      assert nodes[..i + 1][..i] == nodes[..i];
    }

    static lemma NoNodes(nodes: seq<NodeState>)
      ensures nodes[..|nodes|] == nodes && SumMeta(nodes[..0]) == LargestRun(nodes[..0]) == 0
    {
    }

    /** mmap_heap_get_stats */
    method GetStats() returns (s: Stats)
      requires Valid()
      ensures s == HeapSpec.GetStats(View())
    {
      hide Inv, StatesUpTo, Indexed, LongestRun, LargestRun, SumMeta;
      ghost var h := View();
      BreakBounds(h);
      NoNodes(h.nodes);
      var reserved, freeBits := 0, 0;
      var node := list.head;
      ghost var i := 0;
      while node != null
        invariant i <= |list.nodes| == |h.nodes| && node == if i < |list.nodes| then list.nodes[i] else null
        invariant reserved == SumMeta(h.nodes[..i]) && freeBits == LargestRun(h.nodes[..i])
        decreases |list.nodes| - i
      {
        NodeSizes(h, i);
        assert h.nodes[i] == node.State();
        OneNodeMore(h.nodes, i);
        freeBits := node.LargestFreeRun(freeBits);
        reserved := reserved + node.metaSize;
        node := node.next;
        i := i + 1;
      }
      s := Stats(totalSize, allocSize + (curBrk - brkBase), reserved, freeBits * PAGE_SIZE);
    }
  }
}
