/**
 The page allocator of src/mmap.c as a state machine over abstract states: every
 system call is a function from a state and its arguments to the next state and the
 result.  The class in Allocator.dfy refines these functions; HeapInvariant.dfy
 and HeapRuns.dfy prove what they keep and promise.
 */
module HeapSpec {
  import opened Util
  import opened Pages
  import opened Bitmap

  /** sizeof(mmap_node_t) and sizeof(register_t). */
  const NODE_SIZE: nat := 56
  const REGISTER_SIZE: nat := 8

  datatype Errno = EINVAL | ENOMEM | EBUSY

  datatype Result<+T> = Ok(value: T) | Err(errno: Errno)

  /** A heap node: its address range, the size of its metadata, and the pages free in its bitmap. */
  datatype NodeState = NodeState(base: nat, size: nat, meta: nat, free: set<nat>) {
    function PageCount(): nat { size / PAGE_SIZE }

    /** The number of the node's first page in the whole address space. */
    function FirstPage(): nat { base / PAGE_SIZE }

    function MetaPages(): nat { meta / PAGE_SIZE }

    /** No page after the metadata is allocated. */
    predicate AllFree() {
      forall k :: MetaPages() <= k < PageCount() ==> k in free
    }

    predicate Covers(addr: nat, len: nat) {
      base <= addr && addr + len <= base + size
    }
  }

  /**
   brk is the base of the node that backs the program break, if there is one.
   held is what the calls are about: the page numbers that mmap has handed out and
   munmap has not yet taken back.
   */
  datatype HeapState = HeapState(
    nodes: seq<NodeState>, brk: Option<nat>, total: int, alloc: int,
    brkBase: nat, brkTop: nat, curBrk: nat, held: set<nat>)

  const INITIAL: HeapState := HeapState([], None, 0, 0, 0, 0, 0, {})

  predicate Aligned(x: nat) {
    x % PAGE_SIZE == 0
  }

  /** util_balign_up to a page, in 64-bit arithmetic. */
  function AlignUp(x: nat): nat {
    (x + PAGE_SIZE - 1) % U64 / PAGE_SIZE * PAGE_SIZE
  }

  /** The page numbers of a region of memory. */
  function PagesOf(addr: nat, len: nat): set<nat> {
    Range(addr / PAGE_SIZE, len / PAGE_SIZE)
  }

  // ----- Searching the node list -----

  /** The first node at or after `from` that satisfies p; |nodes| if there is none. */
  function FirstIndex(nodes: seq<NodeState>, p: NodeState -> bool, from: nat): (i: nat)
    requires from <= |nodes|
    ensures from <= i <= |nodes|
    ensures i < |nodes| ==> p(nodes[i])
    ensures forall j :: from <= j < i ==> !p(nodes[j])
    decreases |nodes| - from
  {
    if from == |nodes| || p(nodes[from]) then from else FirstIndex(nodes, p, from + 1)
  }

  lemma FirstIndexIsUnique(nodes: seq<NodeState>, p: NodeState -> bool, i: nat)
    requires i <= |nodes| && (i < |nodes| ==> p(nodes[i])) && forall j :: 0 <= j < i ==> !p(nodes[j])
    ensures FirstIndex(nodes, p, 0) == i
  {
  }

  function CanServe(num: nat): NodeState -> bool {
    (n: NodeState) => FirstFit(n.free, n.PageCount(), num).Some?
  }

  function CanCover(addr: nat, len: nat): NodeState -> bool {
    (n: NodeState) => n.Covers(addr, len)
  }

  function IsExactly(base: nat, size: nat): NodeState -> bool {
    (n: NodeState) => n.base == base && n.size == size
  }

  // ----- sys_brk -----

  function Brk(h: HeapState, brk: nat): (HeapState, nat) {
    var newBrk := AlignUp(brk);
    if h.brkBase <= newBrk <= h.brkTop then (h.(curBrk := newBrk), newBrk) else (h, h.curBrk)
  }

  // ----- sys_mmap -----

  datatype MmapArgs = MmapArgs(addr: nat, len: nat, prot: nat, flags: nat, fd: int, off: nat)

  const PROT_READ_WRITE: nat := 3
  const MAP_ANONYMOUS_PRIVATE: nat := 0x22

  /** Only anonymous private read-write mappings are supported. */
  predicate Supported(a: MmapArgs) {
    a.addr == 0 && a.len != 0 && Aligned(a.len) && a.flags == MAP_ANONYMOUS_PRIVATE &&
    a.prot == PROT_READ_WRITE && a.fd == -1 && a.off == 0
  }

  function Mmap(h: HeapState, a: MmapArgs): (HeapState, Result<nat>) {
    if Supported(a) then Alloc(h, a.len) else (h, Err(EINVAL))
  }

  /** alloc_mmap: first fit over the nodes in list order, then the top of the break. */
  function Alloc(h: HeapState, len: nat): (HeapState, Result<nat>) {
    var num := len / PAGE_SIZE;
    var i := FirstIndex(h.nodes, CanServe(num), 0);
    if len > h.total then (h, Err(ENOMEM))
    else if i < |h.nodes| then AllocInNode(h, len, i)
    else if h.curBrk + len <= h.brkTop then AllocFromBreak(h, len)
    else (h, Err(ENOMEM))
  }

  function AllocInNode(h: HeapState, len: nat, i: nat): (HeapState, Result<nat>)
    requires i < |h.nodes| && CanServe(len / PAGE_SIZE)(h.nodes[i])
  {
    var num := len / PAGE_SIZE;
    var n := h.nodes[i];
    var start := FirstFit(n.free, n.PageCount(), num).value;
    var addr := n.base + start * PAGE_SIZE;
    (h.(nodes := h.nodes[i := n.(free := n.free - Range(start, num))],
        alloc := h.alloc + len,
        held := h.held + PagesOf(addr, len)),
     Ok(addr))
  }

  function AllocFromBreak(h: HeapState, len: nat): (HeapState, Result<nat>)
    requires len <= h.brkTop
  {
    var addr := h.brkTop - len;
    (h.(brkTop := addr, alloc := h.alloc + len, held := h.held + PagesOf(addr, len)), Ok(addr))
  }

  // ----- sys_munmap -----

  predicate ValidRegion(addr: nat, len: nat) {
    addr != 0 && len != 0 && addr + len < U64 && Aligned(addr) && Aligned(len)
  }

  function Munmap(h: HeapState, addr: nat, len: nat): (HeapState, Result<()>) {
    var i := FirstIndex(h.nodes, CanCover(addr, len), 0);
    if !ValidRegion(addr, len) || i == |h.nodes| then (h, Err(EINVAL)) else (Free(h, addr, len, i), Ok(()))
  }

  /** free_mmap in the node that covers the region. */
  function Free(h: HeapState, addr: nat, len: nat, i: nat): HeapState
    requires i < |h.nodes| && h.nodes[i].Covers(addr, len)
  {
    var n := h.nodes[i];
    h.(nodes := h.nodes[i := n.(free := n.free + Range((addr - n.base) / PAGE_SIZE, len / PAGE_SIZE))],
       alloc := h.alloc - len,
       held := h.held - PagesOf(addr, len))
  }

  // ----- mmap_add_heap -----

  /** The page-aligned size of a node's metadata: the node structure and its two bitmaps. */
  function MetaSize(size: nat): nat
    requires size / PAGE_SIZE + WORD_BITS < INDEX_LIMIT
  {
    var numPages := size / PAGE_SIZE;
    var numBlocks := NumWords(numPages);
    AlignUp(NODE_SIZE + (NumWords(numBlocks) + NumWords(numPages)) * REGISTER_SIZE)
  }

  function AddHeap(h: HeapState, base: nat, size: nat, isBrk: bool): (HeapState, Result<()>)
    requires size / PAGE_SIZE + WORD_BITS < INDEX_LIMIT
  {
    var meta := MetaSize(size);
    if meta >= size then (h, Err(ENOMEM))
    else
      var metaPages := meta / PAGE_SIZE;
      var free := if isBrk then {} else Range(metaPages, size / PAGE_SIZE - metaPages);
      var added := h.(nodes := h.nodes + [NodeState(base, size, meta, free)], total := h.total + size);
      (if isBrk
       then added.(brk := Some(base), brkBase := base + meta, curBrk := base + meta, brkTop := base + size)
       else added,
       Ok(()))
  }

  // ----- mmap_remove_heap -----

  /** is_mmap_node_free: the index of a registered node, not the break node, with nothing allocated. */
  function FreeNode(h: HeapState, base: nat, size: nat): Result<nat> {
    var i := FirstIndex(h.nodes, IsExactly(base, size), 0);
    if i == |h.nodes| || h.brk == Some(h.nodes[i].base) then Err(EINVAL)
    else if !h.nodes[i].AllFree() then Err(EBUSY)
    else Ok(i)
  }

  function RemoveHeap(h: HeapState, base: nat, size: nat): (HeapState, Result<()>) {
    match FreeNode(h, base, size)
    case Err(e) => (h, Err(e))
    case Ok(i) =>
      (h.(nodes := h.nodes[..i] + h.nodes[i + 1..], total := h.total - size), Ok(()))
  }

  // ----- mmap_heap_get_stats -----

  datatype Stats = Stats(total: int, inUse: int, reserved: nat, largestFree: nat)

  function SumMeta(nodes: seq<NodeState>): nat {
    if nodes == [] then 0 else SumMeta(nodes[..|nodes| - 1]) + nodes[|nodes| - 1].meta
  }

  function LargestRun(nodes: seq<NodeState>): nat {
    if nodes == [] then 0
    else
      var last := nodes[|nodes| - 1];
      Max(LargestRun(nodes[..|nodes| - 1]), LongestRun(last.free, last.PageCount()))
  }

  function GetStats(h: HeapState): Stats
    requires h.brkBase <= h.curBrk
  {
    Stats(h.total, h.alloc + (h.curBrk - h.brkBase), SumMeta(h.nodes), LargestRun(h.nodes) * PAGE_SIZE)
  }
}
