/**
 One heap node of the page allocator (src/mmap.c): a page range described by a
 two-level bitmap.  `freePages` has one bit per page and `availBlocks` one bit
 per word of `freePages`.  The methods are specified on the set of free pages.
 */
module MmapNode {
  import opened Util
  import opened Words
  import opened Bitmap
  import opened Pages
  import opened HeapSpec

  /**
   The two levels agree: block j is marked available exactly when its word of the page
   bitmap is nonzero, and no bit past the last page or the last block is set.
   */
  ghost predicate Indexed(avail: seq<Word>, free: seq<Word>, pages: nat) {
    pages + WORD_BITS < INDEX_LIMIT &&
    |free| == NumWords(pages) && |avail| == NumWords(|free|) &&
    (forall j :: 0 <= j < |free| ==> (IsSet(avail, j) <==> free[j] != Zero())) &&
    (forall k :: pages <= k < WORD_BITS * |free| ==> !IsSet(free, k)) &&
    (forall j :: |free| <= j < WORD_BITS * |avail| ==> !IsSet(avail, j))
  }

  /** The page bitmap `after` is `before` with one field overwritten. */
  ghost predicate FieldSetTo(before: seq<Word>, after: seq<Word>, bit: nat, width: nat, mark: bool) {
    |after| == |before| &&
    forall k :: 0 <= k < WORD_BITS * |before| ==>
      (IsSet(after, k) <==> if bit <= k < bit + width then mark else IsSet(before, k))
  }

  lemma IndexKept(avail: seq<Word>, free: seq<Word>, avail': seq<Word>, free': seq<Word>,
                  pages: nat, bit: nat, width: nat, mark: bool)
    requires Indexed(avail, free, pages) && |avail'| == |avail|
    requires IsField(bit, width, |free|) && bit + width <= pages
    requires FieldSetTo(free, free', bit, width, mark)
    requires forall j :: 0 <= j < |free| && j != bit / WORD_BITS ==> free'[j] == free[j]
    requires forall j :: 0 <= j < WORD_BITS * |avail| && j != bit / WORD_BITS ==> IsSet(avail', j) == IsSet(avail, j)
    requires IsSet(avail', bit / WORD_BITS) <==> free'[bit / WORD_BITS] != Zero()
    ensures Indexed(avail', free', pages)
  {
    hide IsSet, Zero;
  }

  predicate HoldsBitmaps(metaSize: nat, availWords: nat, freeWords: nat) {
    var bytes := NODE_SIZE + REGISTER_SIZE * (availWords + freeWords);
    metaSize % PAGE_SIZE == 0 && bytes <= metaSize < bytes + PAGE_SIZE
  }

  class Node {
    const base: nat
    const size: nat
    const metaSize: nat
    const availBlocks: array<Word>
    const freePages: array<Word>
    var next: Node?
    var prev: Node?

    function PageCount(): nat {
      size / PAGE_SIZE
    }

    ghost predicate Valid()
      reads availBlocks, freePages
    {
      availBlocks != freePages && Indexed(availBlocks[..], freePages[..], PageCount()) && MetadataFits()
    }

    /** The metadata is the least number of pages that holds the node structure and both bitmaps. */
    predicate MetadataFits() {
      HoldsBitmaps(metaSize, availBlocks.Length, freePages.Length)
    }

    ghost function Free(): set<nat>
      requires Valid()
      reads availBlocks, freePages
    {
      set k: nat | k < PageCount() && IsSet(freePages[..], k)
    }

    ghost function State(): NodeState
      requires Valid()
      reads availBlocks, freePages
    {
      NodeState(base, size, metaSize, Free())
    }

    /** The node that mmap_add_heap builds in the first pages of a heap: both bitmaps are clear. */
    constructor (base: nat, size: nat, metaSize: nat)
      requires size / PAGE_SIZE + WORD_BITS < INDEX_LIMIT
      requires HoldsBitmaps(metaSize, NumWords(NumWords(size / PAGE_SIZE)), NumWords(size / PAGE_SIZE))
      ensures this.base == base && this.size == size && this.metaSize == metaSize
      ensures Valid() && Free() == {} && fresh(availBlocks) && fresh(freePages)
    {
      this.base, this.size, this.metaSize := base, size, metaSize;
      next, prev := null, null;
      availBlocks := new Word[NumWords(NumWords(size / PAGE_SIZE))](_ => Zero());
      freePages := new Word[NumWords(size / PAGE_SIZE)](_ => Zero());
      new;
      hide Zero, Bit;
      ClearBitmap(availBlocks[..]);
      ClearBitmap(freePages[..]);
    }

    static lemma ClearBitmap(words: seq<Word>)
      requires forall j :: 0 <= j < |words| ==> words[j] == Zero()
      ensures forall k :: 0 <= k < WORD_BITS * |words| ==> !IsSet(words, k)
    {
      hide Zero, Bit;
      forall k | 0 <= k < WORD_BITS * |words|
        ensures !IsSet(words, k)
      {
        BitOfZero(k % WORD_BITS);
      }
    }

    // ----- update_mmap_range -----

    /** One word's worth of pages is added to the bitmap. */
    method MarkPages(currBit: nat, width: nat)
      requires Valid() && 1 <= width && currBit % WORD_BITS + width <= WORD_BITS && currBit + width <= PageCount()
      requires Range(currBit, width) !! Free()
      modifies availBlocks, freePages
      ensures Valid() && Free() == old(Free()) + Range(currBit, width)
    {
      hide Bit, IsSet, Zero, LowMask, Extract;
      ghost var avail, free := availBlocks[..], freePages[..];
      var mask := LowMask(width);
      FieldBits(currBit, width, false);
      ExtractIsEmpty(free, currBit, width);
      assert Extract(freePages[..], currBit, width) == Zero();
      Insert(freePages, currBit, width, mask);
      Set(availBlocks, currBit / WORD_BITS);
      MaskBits(width);
      assert FieldSetTo(free, freePages[..], currBit, width, true);
      EmptyBlock(freePages[..], currBit / WORD_BITS);
      assert IsSet(freePages[..], currBit);
      IndexKept(avail, free, availBlocks[..], freePages[..], PageCount(), currBit, width, true);
    }

    /** One word's worth of pages is removed, and the block too when it becomes empty. */
    method ClearPages(currBit: nat, width: nat)
      requires Valid() && 1 <= width && currBit % WORD_BITS + width <= WORD_BITS && currBit + width <= PageCount()
      requires Range(currBit, width) <= Free()
      modifies availBlocks, freePages
      ensures Valid() && Free() == old(Free()) - Range(currBit, width)
    {
      hide Bit, IsSet, Zero, LowMask, Extract, And, SingleBit;
      ghost var avail, free := availBlocks[..], freePages[..];
      var j := currBit / WORD_BITS;
      FieldBits(currBit, width, true);
      EmptyBlock(free, j);
      assert Test(availBlocks, j);
      ExtractIsFull(free, currBit, width);
      assert Extract(freePages[..], currBit, width) == LowMask(width);
      Insert(freePages, currBit, width, Zero());
      MaskBits(width);
      if freePages[j] == Zero() {
        Clear(availBlocks, j);
      }
      assert FieldSetTo(free, freePages[..], currBit, width, false);
      IndexKept(avail, free, availBlocks[..], freePages[..], PageCount(), currBit, width, false);
    }

    static lemma MaskBits(width: nat)
      requires width <= WORD_BITS
      ensures forall i :: 0 <= i < width ==> Bit(LowMask(width), i) && !Bit(Zero(), i)
    {
      hide Bit, LowMask, Zero;
      forall i | 0 <= i < width
        ensures Bit(LowMask(width), i) && !Bit(Zero(), i)
      {
        BitOfLowMask(width, i);
        BitOfZero(i);
      }
    }

    lemma FieldBits(bit: nat, width: nat, mark: bool)
      requires Valid() && bit + width <= PageCount()
      requires if mark then Range(bit, width) <= Free() else Range(bit, width) !! Free()
      ensures forall k :: bit <= k < bit + width ==> IsSet(freePages[..], k) == mark
    {
      hide IsSet;
      forall k | bit <= k < bit + width
        ensures IsSet(freePages[..], k) == mark
      {
        assert k in Range(bit, width);
        assert k in Free() <==> IsSet(freePages[..], k);
      }
    }

    /** The free pages after the given ones are added or removed. */
    static function Updated(was: set<nat>, pages: set<nat>, mark: bool): set<nat> {
      if mark then was + pages else was - pages
    }

    /** Only free pages are removed, and only pages that are not free are added. */
    static predicate Updatable(was: set<nat>, pages: set<nat>, mark: bool) {
      if mark then pages !! was else pages <= was
    }

    static lemma FirstField(was: set<nat>, start: nat, num: nat, mark: bool)
      requires if mark then Range(start, num) !! was else Range(start, num) <= was
      ensures Updatable(was, Range(start, num), mark) && Updated(was, Range(start, 0), mark) == was
      ensures Updated(was, Range(start, num), mark) ==
              if mark then was + Range(start, num) else was - Range(start, num)
    {
      RangeParts(start, 0, 0, num);
      hide Range;
      assert was + {} == was && was - {} == was;
    }

    static lemma RangeParts(start: nat, before: nat, width: nat, num: nat)
      requires before + width <= num
      ensures Range(start, 0) == {}
      ensures Range(start, before) + Range(start + before, width) == Range(start, before + width)
      ensures Range(start, before) !! Range(start + before, width)
      ensures Range(start + before, width) <= Range(start, num)
    {
    }

    /** Pages added or removed in two parts. */
    static lemma TwoParts(was: set<nat>, a: set<nat>, b: set<nat>, mark: bool)
      ensures Updated(Updated(was, a, mark), b, mark) == Updated(was, a + b, mark)
    {
      assert was + a + b == was + (a + b);
      assert was - a - b == was - (a + b);
    }

    static lemma StillUpdatable(was: set<nat>, a: set<nat>, b: set<nat>, all: set<nat>, mark: bool)
      requires Updatable(was, all, mark) && a !! b && b <= all
      ensures Updatable(Updated(was, a, mark), b, mark)
    {
    }

    static lemma NextField(was: set<nat>, start: nat, curr: nat, width: nat, num: nat, mark: bool)
      requires start <= curr && curr + width <= start + num && Updatable(was, Range(start, num), mark)
      ensures Updatable(Updated(was, Range(start, curr - start), mark), Range(curr, width), mark)
      ensures Updated(Updated(was, Range(start, curr - start), mark), Range(curr, width), mark) ==
              Updated(was, Range(start, curr + width - start), mark)
    {
      hide Range, Updated, Updatable;
      RangeParts(start, curr - start, width, num);
      TwoParts(was, Range(start, curr - start), Range(curr, width), mark);
      StillUpdatable(was, Range(start, curr - start), Range(curr, width), Range(start, num), mark);
    }

    method UpdateField(currBit: nat, width: nat, mark: bool)
      requires Valid() && 1 <= width && currBit % WORD_BITS + width <= WORD_BITS && currBit + width <= PageCount()
      requires Updatable(Free(), Range(currBit, width), mark)
      modifies availBlocks, freePages
      ensures Valid() && Free() == Updated(old(Free()), Range(currBit, width), mark)
    {
      hide Valid, Free, Range;
      if mark {
        MarkPages(currBit, width);
      } else {
        ClearPages(currBit, width);
      }
    }

    /** update_mmap_range: exactly the given pages are added or removed, across word boundaries. */
    method UpdateRange(startBit: nat, numBits: nat, mark: bool)
      requires Valid() && startBit + numBits <= PageCount()
      requires if mark then Range(startBit, numBits) !! Free() else Range(startBit, numBits) <= Free()
      modifies availBlocks, freePages
      ensures Valid()
      ensures Free() == if mark then old(Free()) + Range(startBit, numBits) else old(Free()) - Range(startBit, numBits)
    {
      hide Valid, Free, Range, Updated, Updatable;
      ghost var was := Free();
      FirstField(was, startBit, numBits, mark);
      var currBit := startBit;
      var remBits := numBits;
      while remBits > 0
        invariant currBit + remBits == startBit + numBits
        invariant startBit <= currBit && 0 <= remBits
        invariant remBits > 0 ==> currBit == startBit || currBit % WORD_BITS == 0
        invariant Valid()
        invariant Free() == Updated(was, Range(startBit, currBit - startBit), mark)
      {
        var i := currBit % WORD_BITS;
        assert currBit == startBit || i == 0;
        var width := if remBits < WORD_BITS - i then remBits else WORD_BITS - i;
        NextField(was, startBit, currBit, width, numBits, mark);
        UpdateField(currBit, width, mark);
        currBit := currBit + width;
        remBits := remBits - width;
      }
      assert currBit == startBit + numBits && remBits == 0;
    }

    // ----- mmap_range_is_free, search_free_mmap_range -----

    /** One step of the range check: a field that is not full tells where to resume. */
    method FieldIsFree(currBit: nat, width: nat) returns (free: bool, nextBit: nat)
      requires Valid() && 1 <= width && currBit % WORD_BITS + width <= WORD_BITS && currBit + width <= PageCount()
      ensures free <==> Range(currBit, width) <= Free()
      ensures !free ==> currBit < nextBit <= currBit + width && nextBit - 1 !in Free()
    {
      FreeField(currBit, width);
      hide Valid, Free, Range, IsSet, ClearInField;
      var top;
      free, top := FieldIsFull(freePages, currBit, width);
      nextBit := 0;
      if !free {
        ClearIsNotFree(currBit, width, top);
        nextBit := currBit + top + 1;
      }
    }

    /** The pages of a field are free exactly if all its bits are set. */
    lemma FreeField(bit: nat, width: nat)
      requires Valid() && 1 <= width && bit % WORD_BITS + width <= WORD_BITS && bit + width <= PageCount()
      ensures IsField(bit, width, freePages.Length)
      ensures Range(bit, width) <= Free() <==> forall k :: bit <= k < bit + width ==> IsSet(freePages[..], k)
    {
      hide IsSet;
      if Range(bit, width) <= Free() {
        forall k | bit <= k < bit + width
          ensures IsSet(freePages[..], k)
        {
          assert k in Range(bit, width);
        }
      }
    }

    lemma ClearIsNotFree(bit: nat, width: nat, m: nat)
      requires Valid() && IsField(bit, width, freePages.Length) && ClearInField(freePages[..], bit, width, m)
      ensures m < width && bit + m !in Free()
    {
      hide IsSet;
    }

    /** mmap_range_is_free: when it fails, nextBit is just past an allocated page of the range. */
    method RangeIsFree(startBit: nat, numBits: nat) returns (free: bool, nextBit: nat)
      requires Valid() && startBit + numBits <= PageCount()
      ensures free <==> Range(startBit, numBits) <= Free()
      ensures !free ==> startBit < nextBit <= startBit + numBits && nextBit - 1 !in Free()
    {
      hide Valid, Free, Range;
      var currBit := startBit;
      var remBits := numBits;
      free, nextBit := true, 0;
      while remBits > 0
        invariant currBit + remBits == startBit + numBits
        invariant startBit <= currBit && 0 <= remBits
        invariant remBits > 0 ==> currBit == startBit || currBit % WORD_BITS == 0
        invariant Range(startBit, currBit - startBit) <= Free()
      {
        var i := currBit % WORD_BITS;
        assert currBit == startBit || i == 0;
        var width := if remBits < WORD_BITS - i then remBits else WORD_BITS - i;
        free, nextBit := FieldIsFree(currBit, width);
        if !free {
          assert nextBit - 1 in Range(startBit, numBits);
          return;
        }
        currBit := currBit + width;
        remBits := remBits - width;
      }
    }

    /** search_free_mmap_range: the lowest run of numBits free pages, if there is one. */
    method SearchFree(numBits: nat) returns (found: bool, bit: nat)
      requires Valid() && 0 < numBits
      ensures FirstFit(Free(), PageCount(), numBits) == if found then Some(bit) else None
    {
      hide Valid, Free, Range, FirstFit;
      found, bit := false, 0;
      var nodeBits := PageCount();
      if numBits > nodeBits {
        NoFit(Free(), nodeBits, numBits);
        return;
      }
      var currBit := 0;
      var endBit := nodeBits - numBits;
      while true
        invariant currBit <= endBit
        invariant forall t :: 0 <= t < currBit ==> !Fits(Free(), nodeBits, numBits, t)
        decreases endBit - currBit
      {
        var more, nextBit := NextFreePage(currBit, endBit);
        forall t | currBit <= t <= endBit && t !in Free()
          ensures !Fits(Free(), nodeBits, numBits, t)
        {
          assert t in Range(t, numBits);
        }
        if !more {
          NoFit(Free(), nodeBits, numBits);
          return;
        }
        var free, resume := RangeIsFree(nextBit, numBits);
        if free {
          FirstFitIsUnique(Free(), nodeBits, numBits, nextBit);
          found, bit := true, nextBit;
          return;
        }
        forall t | nextBit <= t < resume
          ensures !Fits(Free(), nodeBits, numBits, t)
        {
          assert resume - 1 in Range(t, numBits);
        }
        if resume > endBit {
          NoFit(Free(), nodeBits, numBits);
          return;
        }
        currBit := resume;
      }
    }

    /** The two skips of the search: over blocks with no page available, then to the next free page. */
    method NextFreePage(currBit: nat, endBit: nat) returns (found: bool, bit: nat)
      requires Valid() && currBit <= endBit < PageCount()
      ensures found ==> currBit <= bit <= endBit && bit in Free()
      ensures forall t :: currBit <= t <= endBit && (found ==> t < bit) ==> t !in Free()
    {
      hide Bit, IsSet, Zero;
      found, bit := false, 0;
      var currBlock := currBit / WORD_BITS;
      var endBlock := endBit / WORD_BITS;
      var available, nextBlock := FindFirst(availBlocks, currBlock, endBlock, true);
      forall t | currBit <= t <= endBit && (available ==> t < nextBlock * WORD_BITS)
        ensures t !in Free()
      {
        EmptyBlock(freePages[..], t / WORD_BITS);
        assert !IsSet(availBlocks[..], t / WORD_BITS);
        assert freePages[t / WORD_BITS] == Zero();
      }
      if !available {
        return;
      }
      var from := if currBit > nextBlock * WORD_BITS then currBit else nextBlock * WORD_BITS;
      found, bit := FindFirst(freePages, from, endBit, true);
    }

    // ----- is_mmap_node_free, mmap_heap_get_stats -----

    /** The busy check of is_mmap_node_free: is any page after the metadata still allocated? */
    method HasAllocatedPage() returns (busy: bool)
      requires Valid() && metaSize < size && metaSize % PAGE_SIZE == 0 && size % PAGE_SIZE == 0
      ensures busy <==> exists k :: metaSize / PAGE_SIZE <= k < PageCount() && k !in Free()
    {
      hide Bit, IsSet;
      var startBit := metaSize / PAGE_SIZE;
      var endBit := size / PAGE_SIZE - 1;
      var allocBit: nat;
      busy, allocBit := FindFirst(freePages, startBit, endBit, false);
      assert busy ==> allocBit !in Free();
    }

    /** The scan made for this node by mmap_heap_get_stats. */
    method LargestFreeRun(freeBits: nat) returns (largest: nat)
      requires Valid() && 0 < PageCount()
      ensures largest == Max(freeBits, LongestRun(Free(), PageCount()))
    {
      hide Bit, IsSet, LongestRun, Range;
      largest := freeBits;
      ghost var run := 0;
      var currBit := 0;
      var endBit := PageCount() - 1;
      while currBit <= endBit
        invariant currBit <= endBit + 1
        invariant largest == Max(freeBits, run)
        invariant run == 0 || exists s :: Fits(Free(), PageCount(), run, s)
        invariant forall m: nat, s: nat :: s < currBit && Fits(Free(), PageCount(), m, s) ==> m <= run
        decreases endBit + 1 - currBit
      {
        var found, nextBit := FindFirst(freePages, currBit, endBit, true);
        forall m: nat, s: nat | currBit <= s && (found ==> s < nextBit) && Fits(Free(), PageCount(), m, s)
          ensures m == 0
        {
          assert m > 0 ==> s in Range(s, m);
        }
        if !found {
          break;
        }
        var ended, afterRun := FindFirst(freePages, nextBit, endBit, false);
        if !ended {
          afterRun := endBit + 1;
        }
        assert afterRun > nextBit;
        RunEndsAt(nextBit, afterRun);
        run := Max(afterRun - nextBit, run);
        largest := Max(afterRun - nextBit, largest);
        currBit := afterRun;
      }
      LongestRunIsUnique(Free(), PageCount(), run);
    }

    /** A maximal run of free pages bounds every fit that begins inside it. */
    lemma RunEndsAt(first: nat, end: nat)
      requires Valid() && first < end <= PageCount()
      requires forall k :: first <= k < end ==> IsSet(freePages[..], k)
      requires end < PageCount() ==> !IsSet(freePages[..], end)
      ensures Fits(Free(), PageCount(), end - first, first)
      ensures forall m: nat, s: nat :: first <= s < end && Fits(Free(), PageCount(), m, s) ==> m <= end - first
    {
      hide IsSet;
      forall m: nat, s: nat | first <= s < end && Fits(Free(), PageCount(), m, s)
        ensures m <= end - first
      {
        assert end < s + m ==> end in Range(s, m);
      }
    }
  }
}
