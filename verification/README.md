# A verified model of the runtime's allocator, formatter and copies

This project models, in Dafny, the parts of a small EL1/EL0 runtime that carry its hardest
promises, and proves those promises for every input and every run of calls.

**The page allocator** (`src/mmap.c`, `src/bitmap.c`, `include/list.h`). Heaps are nodes of a
pointer list. Each node keeps a two-level bitmap of its free pages in its own first pages, and one
node also backs the program break. `HeapSpec` states every call as a function from an abstract
state to the next state and result. `Allocator.Heap` is the imperative code: fields, the linked
list, and arrays of 64-bit words updated in place. Each of its methods is proved equal to the
specification function. `HeapAnswers` says what each of those functions answers and changes, in terms
of addresses and pages and without repeating them. `HeapInvariant` and `HeapRuns` prove what the calls keep and what runs of
calls promise. Every assertion of the C code on the modelled paths is a proof obligation here.

**The formatter** (`src/string_util.c`). `FormatSpec` is the stage machine that parses a
descriptor, `NumberPrinter` and `StringArg` print one argument into a bounded buffer (numbers
backwards, then reversed in place), and `Snprint` is the driver. `Layout` says what an argument
should look like without any buffer, and `Rendering` does so for a whole format. `Reading` says what a
reader finds in such a text, character by character. `Template` goes from
the pieces a writer puts together to the output, and `Truncation` says exactly when a cut output is
reported as such.

**Supporting parts.** `Memcpy` is the software-pipelined copy of `arch/armv8/src/memcpy.S` and its
dispatch. `LogBuffer` is the ring buffer of `src/log_buf.c`, `Timer` the tick arithmetic of
`src/timer.c`, and `AuxVec` the initial process stack of `src/auxvec.c`.

## How the model relates to the code

- Both compile switches of `src/mmap.c:32-36` are 0. `PAGE_SIZE` is 4096, `register_t` is 64 bits,
  and `index_t` and `count_t` are 32 bits. Mapping flags, errno names, the auxiliary-vector keys and
  the size of a program header come from the Linux and ELF headers, which are not part of this model.
  Error numbers are the cases of a `Result`.
- Heaps are added under the demands that `mmap_add_heap` asserts or silently relies on: page-aligned,
  disjoint from the existing nodes, no second break heap, and all page counts together below
  2^32 - 64 (just under 2^44 bytes). `munmap` of a registered region names only pages held from
  `mmap`; partial unmappings are included. `mmap` and `brk` take any arguments, and heap removal and
  its query any range that passes the assertions of `src/mmap.c:471-474`; the specification, which
  also has to answer for other ranges, refuses them as unregistered.
- Abstract states carry the set `held` of pages that `mmap` has handed out. It is ghost state of the
  class: the code neither stores nor reads it.
- Word-level facts are proved from bit-vector arithmetic in `Words` and then used through single bits,
  so that no other proof touches bit vectors.
- 64-bit wrap-around is written out wherever a value can reach it: the padding counts of `itoa`, the
  remaining-size counter of `padding`, `atodec`, page alignment of a break, and the timer arithmetic.
- Strings are sequences of characters without an encoding and without NUL inside. The memory that
  string arguments point to is a map from addresses to strings.

## Where the code and its promises part

The model follows the code in each of these cases. The exact condition is proved for all inputs, and
an input that fails is given.

- A return value of size or larger is said to indicate that the output was truncated
  (`include/string_util.h:18-19`). Neither direction holds.
  - A complete output is reported as truncated if and only if it fills the room and an argument is
    refused where the room ends, so that only empty texts follow (`FalselyReportedIff`).
    `EmptyIsRefused` and `FalseReport` give inputs.
  - A truncation goes unreported because the last padding of a number is not checked
    (`src/string_util.c:395-398`) and the loop ends as soon as the room is used up
    (`src/string_util.c:867`). `UnreportedIff` gives the exact condition on lengths: the rendering is
    too long, and the first item to reach the end of the room is a number that still fits with room to
    spare without its outer fill, or there is no room from the start. `WideIsCut` and
    `SilentTruncation` give inputs, one with a number that is cut and one with text that is dropped.
  - What does hold is that a success is complete if and only if the rendering fits
    (`OutputCompleteIff`), and that formats without outer fills always report a truncation
    (`ReportedWithoutFill`).
- In the alternate form the prefix adjustment subtracts two from a padding count that may be one
  (`src/string_util.c:307-310`). `ItoaTextIsNumberText` proves that the layout is right if and only
  if the minimum width is not exactly one more than the number of digits; `PrefixWrapsExample` is an
  input for the other case.
- The final right fill runs even when the buffer is already full (`src/string_util.c:412`), and
  `padding` checks its size only after writing. `StaysInsideIff` gives the exact condition,
  `NoRightFill` shows that only left and centred alignments are concerned, and
  `RightFillOverrunsExample` is an input.
- The grammar in `include/string_util.h:16` shows the type as optional. The parser rejects a
  descriptor without one (`src/string_util.c:680-699`) whatever follows it if and only if the
  descriptor says anything at all (`TypelessIsAlwaysInvalidIff`). Behind `{:}` an alignment
  character makes the brace a fill (`src/string_util.c:557`), and the descriptor goes on
  (`BraceIsPassed`, `BraceIsFill`). `TypelessExamples` has an input for each case.
- The fill ':' is read as no fill (`src/string_util.c:567`). `DescriptorRoundTrip` recovers every
  descriptor if and only if its fill is not a colon; `ColonFillExample` is an input.
- `ticks_to_timespec` asserts a valid result. It has one if and only if the tick count is below 2^63
  or so close to 2^64 that the negative time it stands for rounds to zero (`FromTicksIsValidIff`); up
  to 1 GHz only the first can be. `RemainingIsInvalidExample` is a valid request whose remaining time
  is not valid.
- A relative timeout is added without an overflow check (`src/timer.c:106`), so that a request returns
  at once if and only if it is worth no tick or its deadline passes 2^64 (`RequestReturnsAtOnceIff`).
  `ReturnsAtOnceExample` is such a request.
- Above 1 GHz the conversion to ticks may overflow. For every frequency that `timer_init` accepts it is
  monotone if and only if the largest valid timespec does not overflow (`MonotoneIff`).
  `OverflowsExample` is a frequency and two points in time for which the later one has fewer ticks.
- `memmove` copies upwards also when the destination starts inside the source, which the comments say
  is never needed (`arch/armv8/src/memcpy.S:245-248`). It is right there if and only if the source
  repeats itself with the distance between the two (`MoveBytes`, `WantRepeats`); `MovedUpExample` is
  an input.

Left and right alignment of strings are the opposite of those of numbers
(`src/string_util.c:463-471` against `src/string_util.c:340-353`). Each has its own table here.

## Model

| member | source | states |
|---|---|---|
| Words.CtzIsLeastBit | include/compiler.h:36-40 | for a nonzero word, the count of trailing zeros is the position of the lowest set bit |
| Words.MsbIsGreatestBit | include/compiler.h:48 | for a nonzero word, compiler_msb is the position of the highest set bit |
| Words.BitsDetermineWord | src/bitmap.c:20-48 | two words with the same 64 bits are equal |
| Words.BitOfLowMask | include/util.h:12-20 | the safe mask of n bits, for n from 0 to 64, has exactly the bits below n |
| Bitmap.Test | src/bitmap.c:20-28 | bitmap_isset answers whether the given bit of the whole bitmap is set |
| Bitmap.Set | src/bitmap.c:30-38 | bitmap_set sets that bit and leaves every other bit of the bitmap as it was |
| Bitmap.Clear | src/bitmap.c:40-48 | bitmap_clear clears that bit and leaves every other bit as it was |
| Bitmap.BitOfExtract | src/bitmap.c:50-61 | an extracted field holds the bits of the bitmap from its start on and zeros above its width |
| Bitmap.Insert | src/bitmap.c:63-75 | bitmap_insert makes the field hold the bits of the value; all bits outside it and all other words are unchanged; extracting the field gives back the part of the value that fits in it |
| Bitmap.FieldRoundTrip | src/bitmap.c:59-74 | within one word, writing and then reading a field gives back the part of the value that fits in it |
| Bitmap.HighestClearBit | src/mmap.c:163-175 | a field that is not full has a clear bit, and the position computed from the inverted field is inside it and clear |
| Bitmap.FieldIsFull | src/mmap.c:163-175 | comparing a field with its mask tells whether all its bits are set, and otherwise a clear bit inside it is found |
| Bitmap.EmptyBlock | src/mmap.c:135-137 | a word is zero exactly when none of its 64 pages is set |
| Bitmap.FindFirst | src/bitmap.c:77-124 | the least set (or clear) bit in [start, end], and false exactly when there is none, for a bitmap of any length |
| Pages.FirstFitIsExact | src/mmap.c:185-229 | the specified first fit is the lowest start whose whole range is free, and none exactly when no range is free |
| Pages.FirstFitIsUnique | src/mmap.c:185-229 | any start with that property is the specified one |
| Pages.LongestRunIsExact | src/mmap.c:552-576 | a run of m pages can be found exactly when m is at most the longest run |
| Pages.LongestRunIsUnique | src/mmap.c:552-576 | the longest run is the one length that is attained and not exceeded |
| MmapNode.IndexKept | src/mmap.c:122-137 | changing one field of the page bitmap and its block's bit accordingly keeps the two levels in agreement |
| MmapNode.Node.MarkPages | src/mmap.c:117-125 | adding a field of pages to the bitmap: the assertion holds, exactly those pages become free, the block index still agrees |
| MmapNode.Node.ClearPages | src/mmap.c:126-138 | removing a field: both assertions hold, exactly those pages go, and the block's bit is cleared when the block is empty |
| MmapNode.Node.UpdateRange | src/mmap.c:99-146 | over any range across word boundaries exactly the pages of the range change, the index agrees afterwards, and no assertion can fail |
| MmapNode.Node.RangeIsFree | src/mmap.c:148-183 | true exactly when the whole range is free; otherwise the resume point is just past an allocated page of the range |
| MmapNode.Node.NextFreePage | src/mmap.c:203-216 | skipping empty blocks and then allocated pages misses no free page up to the end bit |
| MmapNode.Node.SearchFree | src/mmap.c:185-229 | the two skips never step over a fit: the search is exactly first fit, it terminates, and it fails only if there is no fit |
| MmapNode.Node.HasAllocatedPage | src/mmap.c:489-496 | the busy check finds an allocated page after the metadata exactly if there is one |
| MmapNode.Node.LargestFreeRun | src/mmap.c:555-576 | the scan of one node raises the running maximum to the length of the node's longest free run |
| NodeList.List.Append | include/list.h:5-18 | the pointer list, forward ending in null and with the head's prev at the tail, refines appending to a sequence |
| NodeList.List.Remove | include/list.h:20-37 | unlinking at the head, in the middle, at the tail or of the only node removes exactly that element and keeps the rest in order |
| HeapInvariant.InitialInv | src/mmap.c:57-65 | the empty allocator satisfies the invariant |
| HeapInvariant.BrkKeeps | src/mmap.c:72-97 | sys_brk keeps the invariant and the break inside its bounds and page-aligned |
| HeapInvariant.ClaimPages | src/mmap.c:247-262 | pages taken from a node's free pages become held and every page is still accounted for once |
| HeapInvariant.ClaimBreakPages | src/mmap.c:257-262 | pages stolen from the top of the break become held, lie in the break node and belong to no bitmap |
| HeapInvariant.AllocKeeps | src/mmap.c:231-294 | an allocation keeps the invariant, whether served from a bitmap, from the break or refused |
| HeapInvariant.UnmappedPages | src/mmap.c:319-343 | held pages that are unmapped are not free in the bitmap beforehand, so the update's assertion holds |
| HeapInvariant.MunmapKeeps | src/mmap.c:296-396 | unmapping held pages, wholly or in part, keeps the invariant |
| HeapInvariant.AddHeapKeeps | src/mmap.c:398-464 | adding a heap, of either kind or refused as too small, keeps the invariant |
| HeapInvariant.RemoveHeapKeeps | src/mmap.c:508-536 | removing a heap, or refusing to, keeps the invariant |
| HeapRuns.ReachableKeeps | src/mmap.c:72-536 | every state reached from the empty heap by add-heap, mmap, munmap, brk and remove-heap calls satisfies the invariant |
| HeapRuns.ReachableBalance | src/mmap.c:260-288 | in every reachable state the total is the allocated bytes plus free pages plus metadata plus the break region, and the allocated bytes are the held pages |
| HeapRuns.HeldPageIsSafe | src/mmap.c:271-274 | a page held from mmap lies in a registered node, in no node's metadata, not in the break region, and is free in no bitmap |
| HeapRuns.ReachablePagesAreSafe | src/mmap.c:72-536 | the same after every run |
| HeapRuns.MappingIsFresh | src/mmap.c:231-294 | a successful mmap returns page-aligned memory inside a node that nobody held, and exactly its pages become held |
| HeapRuns.HeldUntilUnmapped | src/mmap.c:356-396 | over any run a held page stays held until some munmap names it |
| HeapRuns.MappingsAreDisjoint | src/mmap.c:231-294 | every page that two mappings made at any two points of a run share was named by some munmap in between |
| HeapRuns.AllocSucceedsIff | src/mmap.c:231-274 | for every positive multiple of the page size an allocation succeeds if and only if it fits the reported largest free run or the unused break; refusal changes nothing |
| HeapRuns.FirstHeapServes | src/mmap.c:398-464 | the first allocation from a first heap gets exactly what the metadata leaves: from the bottom of an ordinary heap, from the top of a break heap, and ENOMEM beyond that |
| HeapRuns.StatsBalance | src/mmap.c:578-585 | total minus allocated minus reserved is exactly the free pages plus the break slack |
| HeapRuns.MunmapUndoesMmap | src/mmap.c:231-354 | unmapping a fresh mapping restores the state exactly if it came from a bitmap; if it came from the break, its pages end up free in the break node's bitmap |
| HeapRuns.BreakTopNeverRises | src/mmap.c:439-446 | once there is a break heap it stays, its base is fixed, its top only falls, and base, break and top stay ordered and aligned over any run |
| HeapRuns.NoFreePageInBreak | src/mmap.c:257-262 | no page of the break node below the break's top is marked free |
| HeapRuns.RemoveSucceedsIff | src/mmap.c:466-536 | removal succeeds exactly for a registered node that is not the break node and holds no live page; with a live page it is busy; a refusal changes nothing |
| HeapRuns.RemoveUndoesAdd | src/mmap.c:398-536 | adding a heap and removing it restores the whole state, including the order of the nodes and the totals |
| HeapAnswers.BrkAnswers | src/mmap.c:72-97 | the request is rounded up to the next page boundary; inside the bounds of the break that becomes the break and the answer, otherwise, also if 64 bits have no such boundary, the old break is answered and kept; nothing else changes |
| HeapAnswers.AllocFromFirst | src/mmap.c:247-290 | an allocation takes the lowest run of the first node in list order that has one: its address, the pages that stop being free, the pages that become held, and nothing else |
| HeapAnswers.AllocFromTop | src/mmap.c:257-290 | where no node has a run, the top of the break is lowered by the length and answered, or there is no memory and nothing changes |
| HeapAnswers.FirstServerExists | src/mmap.c:247-255 | one of the two cases always applies |
| HeapAnswers.MmapAnswers | src/mmap.c:356-378 | argument by argument: exactly which requests are invalid, and that every other one is served if and only if a run or the unused break is long enough |
| HeapAnswers.MunmapAnswers | src/mmap.c:296-396 | success exactly for a nonempty aligned region inside a node; then exactly its pages become free in that node and stop being held, and everything else stays |
| HeapAnswers.MetaSizeIsLeast | src/mmap.c:408-419 | the metadata size is the least multiple of the page size that holds 56 bytes and the words of both bitmaps |
| HeapAnswers.AddHeapAnswers | src/mmap.c:398-464 | a heap is added exactly if its metadata leaves it a page; its node comes last, with all pages behind the metadata free or given to an empty break |
| HeapAnswers.RemoveAnswers | src/mmap.c:466-536 | the named node and no other is taken out, or the exact refusal; the order of the others and everything else stays |
| HeapAnswers.StatsAnswer | src/mmap.c:544-588 | each figure by itself: all node sizes, held pages and the used break, metadata, and the longest run of any node |
| Allocator.Heap.constructor | src/mmap.c:57-65 | the initial statics are the empty abstract state |
| Allocator.Heap.SysBrk | src/mmap.c:72-97 | the request, rounded up to a page boundary, becomes the break and the answer inside its bounds, and otherwise the old break is kept; refines the specification |
| Allocator.Heap.FindFit | src/mmap.c:247-255 | the list walk finds the first node in list order that has a long enough run, and its first fit |
| Allocator.Heap.AllocMmap | src/mmap.c:231-294 | new abstract state and result are those of the specification, with every assertion on the way proved |
| Allocator.Heap.SysMmap | src/mmap.c:356-378 | spelled out for every argument: what is invalid, and that the rest is served if and only if it fits; refines the specification |
| Allocator.Heap.SysMunmap | src/mmap.c:296-396 | invalid or unregistered regions are refused without change, held ones are returned to the node that covers them |
| Allocator.Heap.AddHeap | src/mmap.c:398-464 | new abstract state and result are those of the specification, for ordinary and break heaps and for heaps too small for their metadata, and the new node's bitmaps fit its metadata |
| Allocator.Heap.HeapIsFree | src/mmap.c:466-542 | reports what a removal would, without changing anything |
| Allocator.Heap.RemoveHeap | src/mmap.c:508-536 | new abstract state and result are those of the specification |
| Allocator.Heap.GetStats | src/mmap.c:544-588 | total, in use, reserved and largest free run are those of the abstract state |
| Digits.NumeralIsExact | src/string_util.c:292-303 | for every value and base 2, 8, 10 and 16 the digits, reversed, are a numeral of exactly that value with no leading zero except for 0 |
| Digits.NumeralIsUnique | src/string_util.c:292-303 | every numeral without leading zeros is the one printed for its value |
| Digits.AtoDec | src/string_util.c:140-154 | the loop computes the specified 64-bit value |
| Digits.DecValueIsModular | src/string_util.c:140-154 | on digits, atodec computes the decimal value modulo 2^64 |
| Digits.AtoDecInvertsNumeral | src/string_util.c:140-154 | atodec inverts the decimal digits of itoa over the whole 64-bit range |
| Layout.ItoaTextIsNumberText | src/string_util.c:305-364 | the text that itoa lays out is sign, prefix and digits filled to max(minimum width, content) if and only if the prefix adjustment does not wrap |
| Layout.PaddingIsExact | src/string_util.c:305-315 | the padding count is exactly what is missing to the minimum width, or has wrapped around |
| Layout.PrefixWrapsExample | src/string_util.c:307-310 | an input whose padding count wraps |
| NumberPrinter.Padding | src/string_util.c:156-173 | how many characters the padding writes, including a start without any room |
| NumberPrinter.EmitDigits | src/string_util.c:292-303 | the digits, least significant first, as far as the buffer goes |
| NumberPrinter.InsertSign | src/string_util.c:175-216 | which character is written for each sign option and sign, and when there is none |
| NumberPrinter.InsertBase | src/string_util.c:218-270 | the letter of the base and the zero behind it, each only if there is room |
| NumberPrinter.ReverseInPlace | src/string_util.c:400-410 | the part of the buffer is reversed and nothing else changes |
| NumberPrinter.Itoa | src/string_util.c:272-419 | buffer, status and remaining size for every input, including every early exit |
| NumberPrinter.ItoaIsComplete | src/string_util.c:272-419 | with room for one more character itoa succeeds with exactly the laid-out text, and only then does it succeed without filling the buffer |
| NumberPrinter.StaysInsideIff | src/string_util.c:412-413 | itoa writes inside its buffer if and only if no right fill is wanted after the buffer is used up |
| NumberPrinter.NoRightFill | src/string_util.c:333-364 | numbers that are not aligned left or centred always stay inside |
| NumberPrinter.CompleteIff | src/string_util.c:395-398 | on success the number is complete if and only if its text fits |
| NumberPrinter.CutKeepsTheEnd | src/string_util.c:366-410 | without a right fill, a number that does not fit leaves exactly its last characters |
| NumberPrinter.RightFillOverrunsExample | src/string_util.c:412-413 | an input whose right fill runs past the given size |
| StringArg.StringToA | src/string_util.c:436-515 | as much of the cut and filled string as fits is written, the remaining size is exact, and success means exactly that there was room for one more character, and then the whole text stands in the buffer |
| StringArg.StringTextWidth | src/string_util.c:452-474 | a string is cut to the precision and padded to exactly the minimum width |
| Reading.NumberByIndex | src/string_util.c:272-419 | position by position for all options: the sign character, the prefix characters, digits that spell the value without leading zeros, the total width, and where each alignment lets which fill character stand |
| Reading.NumberArgument | src/string_util.c:818-840 | the same for an argument: b, o and x spell the 64-bit value in base 2, 8 and 16, and d a signed value in base 10 |
| Reading.PlainReadsBack | src/string_util.c:818-840 | reading a number that was printed without a width gives the argument back, for each type and sign option |
| Reading.StringByIndex | src/string_util.c:436-515 | position by position: the first characters of the string as far as the precision goes, and where each alignment lets which fill character stand |
| Reading.StringArgument | src/string_util.c:841-843 | the same for the string that an argument points to |
| FormatSpec.ScanBounds | src/string_util.c:762-816 | a parsed descriptor consumes at least one character and never more than the format has |
| FormatSpec.ScanNumbers | src/string_util.c:619-678 | the numbers the parser stores fit 64 bits for every format |
| FormatSpec.FmtInfo.CheckToken | src/string_util.c:519-760 | each stage's check makes the specified step of the machine |
| FormatSpec.GetNextFmt | src/string_util.c:762-816 | the loop over index and stage terminates and reports the specified parse of every format |
| FormatRoundTrip.DescriptorRoundTrip | include/string_util.h:13-16 | writing any descriptor with a type, after any literal text and before any rest, and parsing it recovers the descriptor, the literal length and the consumed length; only a fill ':' is lost |
| FormatRoundTrip.ColonFillExample | src/string_util.c:566-569 | an input whose fill is lost |
| FormatRoundTrip.UnterminatedIsRead | src/string_util.c:775-815 | a descriptor that the end of the format cuts off before its brace is read like a whole one |
| FormatRoundTrip.TypelessIsInvalid | src/string_util.c:680-699 | every descriptor without a type is an error, unless it says nothing and an alignment character follows its brace |
| FormatRoundTrip.TypelessIsAlwaysInvalidIff | src/string_util.c:547-699 | a descriptor without a type is an error whatever follows it if and only if it says anything |
| FormatRoundTrip.BraceIsPassed | src/string_util.c:557-571 | behind a descriptor that says nothing an alignment character takes the brace as its fill, unless a second alignment character follows |
| FormatRoundTrip.BraceIsFill | src/string_util.c:557-571 | the parse is then that of a descriptor with the fill '}' |
| FormatRoundTrip.TypelessExamples | src/string_util.c:547-699 | an input that is rejected and one that is parsed across its brace |
| FormatSpec.TypedUnlessEnd | src/string_util.c:680-716 | a descriptor that is finished before the end of the format has a type |
| Snprint.SItoa | src/string_util.c:421-434 | the magnitude and sign of a signed value are printed |
| Snprint.GenStr | src/string_util.c:818-852 | dispatch by type, and the number of characters written never exceeds the room |
| Rendering.GenIsComplete | src/string_util.c:818-852 | an argument's text is written completely exactly when there is room for one more character and no padding count wraps |
| Rendering.PrintRefinesRendering | src/string_util.c:854-925 | for every format: success with room to spare means the output is the rendering, and a rendering that fits with room to spare is printed |
| Template.RenderedIsMeant | include/string_util.h:5-16 | for any number of literals and typed descriptors, the rendering of the written format is the concatenation of the literals and the arguments' texts |
| Template.PrintsAsMeant | src/string_util.c:854-925 | with arguments that suit such a format, of any alignment, a meaning that fits with room to spare is accepted and printed as meant |
| Template.AllAreOk | src/string_util.c:854-925 | without left or centred numbers the format is accepted whether its meaning fits or not |
| Rendering.FittingArgsOk | src/string_util.c:412-413 | for any format and any alignments, where the rendering fits with room to spare no right fill runs out of room |
| Truncation.OkIff | src/string_util.c:867-917 | the status is a success if and only if the lengths say so: literal text fits, strings fit with room to spare, and numbers do without their outer fill |
| Truncation.OutputCompleteIff | src/string_util.c:854-925 | a successful output is the rendering if and only if there is one and it fits |
| Truncation.RenderingNeverFails | src/string_util.c:874-911 | where there is a rendering, only success and truncation are reported |
| Truncation.PrintsThrough | src/string_util.c:867-917 | pieces that fit with room to spare are printed as meant, and the run goes on with whatever follows them |
| Truncation.StopsAt | src/string_util.c:893-916 | which error stops a run behind them, and what stands in the output then: no argument left, a NULL string, or an argument without room |
| Truncation.StopsAtInvalid | src/string_util.c:874-878 | a format in error stops the run with that error and the output so far |
| Truncation.StopsAtLongLiteral | src/string_util.c:880-887 | literal text without room stops it as truncated, and none of that text is counted |
| Truncation.UnreportedIff | include/string_util.h:18-19 | the output is incomplete and no truncation reported if and only if the rendering is too long and the lengths let the run end with success |
| Truncation.FalselyReportedIff | include/string_util.h:18-19 | a complete output is reported as truncated if and only if it fills the room and an argument is refused where the room ends |
| Truncation.EmptyIsRefused | src/string_util.c:484-487 | a family of accepted inputs whose complete output is reported as truncated |
| Truncation.FalseReport | include/string_util.h:18-19 | a concrete one in a buffer of three characters |
| Truncation.ReportedWithoutFill | include/string_util.h:18-19 | with any room at all and no outer fills, every truncation is reported |
| Truncation.WideIsCut | src/string_util.c:395-398 | a family of accepted inputs for which the output is cut although status and length report success |
| Snprint.Snprint | src/string_util.c:854-925 | terminates on every format; the status is a success exactly if the lengths say so; a success is complete exactly if the rendering fits, and OK with r below size - 1 always means that the buffer holds the rendering and a NUL after it; r of at least size means truncation was reported, with the exact condition for a complete output; nothing beyond the size is written |
| Truncation.SilentTruncation | include/string_util.h:18-19 | two concrete inputs: one whose number is cut, one whose trailing text is dropped |
| Memcpy.LoadsSource | arch/armv8/src/memcpy.S:129-147 | a load ahead of the stores sees what a copy byte by byte would see, as long as it runs no further ahead than the overlap allows |
| Memcpy.Below32 | arch/armv8/src/memcpy.S:10-33 | exactly the last n < 32 bytes are copied, one step per bit of the size |
| Memcpy.ChunkLoop | arch/armv8/src/memcpy.S:94-179 | the pipelined loop and its last chunk copy whole chunks, and pointers and size are consistent at both exits |
| Memcpy.OneChunk | arch/armv8/src/memcpy.S:181-205 | the single chunk with its interleaved loads and stores is copied |
| Memcpy.Blocks | arch/armv8/src/memcpy.S:207-236 | the computed jumps copy exactly the remaining 16-byte blocks |
| Memcpy.Align16 | arch/armv8/src/memcpy.S:65-242 | every size from 16 on is copied completely to an aligned target |
| Memcpy.Alignable | arch/armv8/src/memcpy.S:38-65 | the peeling steps align the target to 16 and the copy is complete for every start alignment |
| Memcpy.Copy | arch/armv8/src/string.c:87-110 | memcpy copies exactly n bytes and writes nothing else, for disjoint regions and for a destination below an overlapping source; more than 256 bytes above one it does what a copy byte by byte does |
| Memcpy.CopyBounded | arch/armv8/src/string.c:77-85 | memscpy copies exactly the smaller of the two sizes and reports it |
| Memcpy.MoveBytes | arch/armv8/src/string.c:112-137 | for any two regions: memmove is right if and only if the destination does not start inside the source, above its start, or the source repeats itself with their distance |
| Memcpy.WantRepeats | arch/armv8/src/string.c:124-136 | above an overlapping source, byte i of the destination becomes byte i modulo the distance of the source |
| Memcpy.MovedUpExample | arch/armv8/src/string.c:133-135 | an input that memmove gets wrong |
| Memcpy.CopyBytes | arch/armv8/src/memcpy.S:249-260 | the byte loop, for any two regions |
| LogBuffer.Log.SetBuffer | src/log_buf.c:23-35 | a new area starts an empty history |
| LogBuffer.Log.Append | src/log_buf.c:37-71 | any message, longer than the buffer or not, is added to the history that the ring represents, and a NUL stands at the write index |
| LogBuffer.HistoryGrows | src/log_buf.c:45-67 | writing the kept part around the ring makes it represent the longer history |
| LogBuffer.ReadBackIsHistory | src/log_buf.c:37-71 | reading backwards from the write index gives the last min(length, size - 1) characters of everything appended |
| Timer.Clock.Init | src/timer.c:45-57 | the bound on seconds is positive and fits a signed 64-bit number |
| Timer.MaxSecIsLargest | src/timer.c:49-53 | the bound is the largest number of seconds for which seconds times frequency and the last nanosecond stay in 64 bits and that a signed 64-bit field can hold |
| Timer.NeverOverflowsIff | src/timer.c:67-74 | for any frequency no valid timespec overflows if and only if the largest one does not |
| Timer.NoOverflowUpToGigahertz | src/timer.c:67-74 | for frequencies up to 1 GHz the 64-bit conversion is exact on all valid timespecs |
| Timer.TicksAreWhole | src/timer.c:67-74 | the result is the number of whole ticks that have passed at the point in time |
| Timer.TimeIsWhole | src/timer.c:79-89 | the timespec is the number of whole nanoseconds that have passed, with less than a second in its second field |
| Timer.ToTicksIsMonotone | src/timer.c:67-74 | later points in time never have fewer ticks, for every frequency for which the largest valid timespec does not overflow |
| Timer.LargestFitsUpToGigahertz | src/timer.c:67-74 | those are all frequencies up to 1 GHz |
| Timer.MonotoneIff | src/timer.c:45-74 | for every frequency that timer_init accepts, the conversion is monotone if and only if the largest valid timespec does not overflow |
| Timer.OverflowsExample | src/timer.c:67-74 | an accepted frequency and two valid points in time, the later of which has fewer ticks |
| Timer.FromTicksIsValidIff | src/timer.c:79-89 | the result is a valid timespec, as asserted, if and only if the ticks are below 2^63 or stand for a negative time that rounds to zero |
| Timer.FromTicksIsValidUpToGigahertz | src/timer.c:79-89 | up to 1 GHz the result is valid if and only if the ticks are below 2^63 |
| Timer.TicksRoundTrip | src/timer.c:67-89 | there and back never overflows and loses exactly the nanoseconds cut off, rounded up to ticks |
| Timer.LossUpToGigahertz | src/timer.c:67-89 | up to 1 GHz that is at most one tick, and none exactly when the fraction is a whole number of nanoseconds |
| Timer.RelativeReturnsAtOnceIff | src/timer.c:102-112 | a relative deadline is not in the future if and only if the ticks are none or the sum wraps around |
| Timer.RequestReturnsAtOnceIff | src/timer.c:91-112 | in terms of the request: a relative one is worth no tick, or its exact deadline passes 2^64; an absolute one is not after now |
| Timer.ReturnsAtOnceExample | src/timer.c:105-112 | a valid request of many seconds that returns at once |
| Timer.RemainingIsInvalidExample | src/timer.c:126-130 | a valid request that is interrupted early and whose remaining time fails the assertion |
| AuxVec.FillAuxvEntry | src/auxvec.c:54-70 | key below value, two words further down, nothing else changed |
| AuxVec.SetupAuxvector | src/auxvec.c:72-96 | the five or six entries lie below the old pointer in reverse order of pushing |
| AuxVec.PushVector | src/auxvec.c:98-130 | the vector lies in order and is terminated by a null word |
| AuxVec.SetupArguments | src/auxvec.c:118-135 | the count, the vector and its terminator |
| AuxVec.SetupStack | src/auxvec.c:165-202 | the whole image from the final pointer upwards, the pointer 16-byte aligned, memory below untouched, and a reader recovers what was pushed |
| AuxVec.PaddingAligns | src/auxvec.c:173-200 | the padding computed before the other words are pushed makes the final pointer 16-byte aligned |
| AuxVec.PaddingIsLeast | src/auxvec.c:173-188 | there is at most one word of padding |
| AuxVec.StackRoundTrip | src/auxvec.c:137-202 | a program that walks argc, argv, envp and the auxiliary vector upwards recovers exactly what was pushed |
| AuxVec.KeysAreFound | src/auxvec.c:72-96 | under each key a reader finds the value that it is for, and nothing under any other |

## Left out

- The memory behind the heaps: a node's structure and bitmaps are objects of their own instead of the
  heap's first pages, and the zeroing of mapped pages has no contents to change. What the metadata
  occupies is kept as a size, and no page of it is ever handed out.
- `MMAP_ALLOC_TRACK` and `MMAP_SANITISE` branches, logging of errors and `app_stack` bookkeeping.
- Heaps of 2^44 bytes and more in total, for which the 32-bit page counts would be cut off.
- Allocator.Heap.AddHeap: excludes heaps that overlap a registered node, a second break heap and page
  counts past 32 bits, for which the code corrupts its state or stops at an assertion, and a heap at
  address 0, where the node would be the null pointer.
- Allocator.Heap.SysMunmap: excludes a registered region with pages that are not held.
- Unmapping pages that are not held from `mmap`: the code would stop at an assertion or hand out pages
  that are in use, and relies on its callers not to do so.
- Snprint.GenStr: excludes the 64-bit minimum for type d, whose negation C leaves undefined, addresses
  of strings that are not in memory, and numbers whose right fill leaves the buffer.
- Snprint.Snprint: has the same demands on the arguments it reaches, asks for a buffer of at least one
  character (a size of 0 wraps around in the code) and for formats shorter than 2^32 characters, the
  range of the parser's index.
- Snprint.SItoa: excludes the 64-bit minimum, whose negation C leaves undefined.
- StringArg.StringToA: the string's length is taken as known; `strlen` is not modelled.
- NumberPrinter.Padding: the memory behind the buffer must hold what is written, also when that is more
  than the size allows.
- Memcpy.MoveBytes: leaves out the third test of the code, which cannot hold once the destination is
  above the source.
- Memcpy.CopyBounded: `memscpy` in the log and the formatter is a loop over characters with the same
  contract, because their buffers hold characters and not bytes.
- Memcpy.Copy: excludes a destination at most 256 bytes above the start of an overlapping source, for
  which the code never calls it.
- Memcpy.Align16: prefetches have no effect on memory and are not modelled, and the computed jumps are
  conditions on the block count.
- The `memset` variants of the assembly: `memset` is a loop over characters.
- LogBuffer.Log.Append: concurrent appends; the code takes no lock.
- AuxVec.SetupStack: assumes that the stack is large enough, as the code does, and that counts fit a
  signed 32-bit number.
- The ELF header, the entropy call and the device tree: their results are parameters.
- Timer.FromTicksIsValidIff: excludes frequencies above 9.2 GHz, for which the signed product of
  `ticks_to_timespec` overflows, which C leaves undefined.
- Timer.TicksRoundTrip: excludes the same frequencies for the same reason.
- Timer.RequestReturnsAtOnceIff: excludes requests whose conversion overflows, for which
  `RelativeReturnsAtOnceIff` speaks of the ticks that come out.
- The waiting half of `timer_set_and_wait`, timer interrupts and platform timers.
- Hypercall wrappers, file descriptors, console and tty, exit paths, relocation and system-call
  dispatch, which are short dispatch code.
