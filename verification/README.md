# Verified models of the SO3 kernel core

SO3 is a small operating system kernel. This project models its most intricate algorithms and
protocols in Dafny and proves what they promise: for every input, every call history, or every
interleaving. `dafny verify dfyconfig.toml` checks everything.

Code that updates memory step by step is modelled by methods on arrays and classes with loops and
frames; each is proved against functions and predicates on values, and the properties are proved of
those. Protocols are state machines whose steps are the stretches the code runs atomically, with a
class whose methods perform the steps.

| area | modules | main results |
|---|---|---|
| shared | Powers, Bits, Queues | powers, machine words as integers, sequences without repetition |
| `so3/lib/strtod.c` | Words, Bigints, Products, Scaling, Division, DigitComparison, Rounding, NumeralParser, Clipping, NumeralTexts, Strtod | big-integer arithmetic agrees with the natural numbers; one correction suffices in the long division; the decimal text determines whether the candidate is rounded up, and exactly when clipping its exponent matters |
| `so3/mm/heap.c` | QuickIndex, Tiling, KernelHeap, HeapRuns, HeapRefusals | every call of every run does what it promises, blocks tile the region, grants never overlap, free neighbours never remain, nothing beyond a header is wasted, what is given back can be had again, everything freed restores the start |
| `so3/lib/list_sort.c` | SortSpec, ListLinks, ListSort | a stable sorted permutation with all links restored; which comparisons are made; the bits of count always find two runs of equal size |
| `so3/kernel/mutex.c` | MutexProtocol | exclusion, nesting as the calls made say and no lost wake-up in every interleaving |
| `so3/devices/irq.c` | BottomHalf | one worker per interrupt, every request served |
| `so3/kernel/schedule.c` | Scheduling, ThreadStates | the ready queue is exactly the READY threads; round robin dispatches within i + 1 calls, fixed priorities run the highest |
| `so3/lib/vsprintf.c` | DecimalDigits, NumberText, FieldLayout | division-free decimal output is exact; print and read is the identity |
| `so3/kernel/bitmap.c` | Bitmap | shifts bit by bit, also in place |
| `so3/lib/string_helpers.c` | StringEscape, EscapeForms | exactly which flags make escape and unescape the identity, also in place |
| `so3/kernel/timer.c` | Clocks | the multiplier and shift found are the best in range |

## Where the code does not do what is hoped for

The model follows the code. For each of these a member of the table below states exactly when the code
does what is hoped for, and where named a second one gives a case in which it does not.

- The digit loop of `bigcomp` tests for a zero remainder by looking for one word equal to zero. With a
  one-word divisor the division can leave no word at all, and an exact tie is then reported as
  "less". `DigitComparison.CompareDigits` proves that this is the only failure, for all operands,
  `DigitComparison.LostZeroExample` is one, and `Rounding.NoLostZero` proves that operands made from a
  double never meet it.
- The comment of `list_sort` says that the comparison is always called with the earlier element
  first. The loop that restores the back links also compares every 256th element with itself: the
  comment holds if and only if fewer than 256 elements are left for that loop
  (`ListSort.SelfCallsExact`); long sorted inputs leave more (`ListSort.SortedInputSelfCalls`).
- `mutex_lock` counts nesting in 32 bits; exactly a lock at 2^32 levels breaks the invariant
  (`MutexProtocol.StepInv`, `MutexProtocol.OverflowArises`). `mutex_unlock` does not check its caller
  and keeps the invariant if and only if the caller is the holder (`MutexProtocol.UnlockExact`,
  `MutexProtocol.ForeignUnlock`).
- `ready` does not check whether the thread is current. It keeps the invariant if and only if the thread
  is neither READY nor current (`Scheduling.ReadyInv`); on the current thread the next `schedule` mends it
  unless it chooses that thread again (`Scheduling.ReadyOnCurrent`, `Scheduling.ChosenAgainArises`).
- `clocks_calc_mult_shift` returns shift 0 with the multiplier computed for shift 1 if and only if no
  shift passes (`Clocks.CalcMultShift`, `Clocks.FailingPair`).
- The comment on `MAX_DIGITS` and `MAX_ABS_EXP` hopes that clipping long exponents cannot affect the output.
  Every exponent of ten or more digits becomes 1.1 * 10^9, the ones between 10^9 and that included, so it can:
  exactly if the value is neither zero nor out of the range of the doubles anyway (`Clipping.ClippingExact`), as
  for a text of a billion digits (`Clipping.ClippedText`); never with 400 digits less (`Clipping.FewerDigitsSafe`).
- `malloc` looks at the last chunk of each size only. It refuses exactly what no free chunk could serve if and
  only if the last chunks offer most (`HeapRefusals.RefusalExact`); a short run leads to a heap where they do not
  (`HeapRefusals.RefusedWithRoom`).
- The field width of `number` is a 16-bit field: the text has the width asked for if and only if the slack
  does not wrap (`NumberText.TextWidth`, `NumberText.WidthWraps`).
- Escaping and unescaping give every string back if and only if the flags and the dictionary are safe
  (`StringEscape.RoundTripExact`); the short escape of null before a digit is the subtle case
  (`StringEscape.NulThenDigit`).

Two places where C leaves the behaviour open are settled by the model and carry no member of their own:

- `irq_process` reads an uninitialized result if no top half is bound; the model takes the result as
  a parameter.
- `__bitmap_shift_right` and `__bitmap_shift_left` shift a zero by the full word size when the shift
  is word aligned; the model takes the result to be zero.

## Model

| member | source | states |
|---|---|---|
| Words.ValInjective | so3/lib/strtod.c:308-328 | word arrays of the same length and value are the same: base-2^32 notation is unique |
| Bigints.RowValue | so3/lib/strtod.c:474-492 | column by column, multiply-and-add with carry spells out c + s*m + a, for any number of words |
| Bigints.MultAdd | so3/lib/strtod.c:460-506 | value times m plus a, in place or in a copy of twice the capacity; normal form is kept |
| Bigints.Cmp | so3/lib/strtod.c:903-930 | all three signs of the result, each if and only if the values compare that way |
| Bigints.DiffValue | so3/lib/strtod.c:975-990 | wrapped word differences and the last borrow spell out b - t; no borrow is left when t <= b |
| Products.Mult | so3/lib/strtod.c:642-737 | the product of the two values, normalized, in fresh storage |
| Products.LShift | so3/lib/strtod.c:856-898 | value times 2^k, normalized, for every k >= 0 |
| Products.Diff | so3/lib/strtod.c:936-1011 | the absolute difference, with sign 1 exactly when a < b |
| Scaling.FromInt | so3/lib/strtod.c:626-637 | a one-word number |
| Scaling.CachedPowerSquares | so3/lib/strtod.c:781-793 | the powers 5^(2^(i+2)) the cache list promises are each the square of their predecessor |
| Scaling.PowersOfFive.constructor | so3/lib/strtod.c:743-743 | the cache starts empty and valid |
| Scaling.PowersOfFive.Entry | so3/lib/strtod.c:764-795 | entry i of the cache, which keeps holding 5^(2^(i+2)) at every position i and never loses an entry |
| Scaling.Pow5Mult | so3/lib/strtod.c:749-798 | value times 5^k for every k >= 0, with the shared cache valid before and after whatever the call history |
| Scaling.Hi0Bits | so3/lib/strtod.c:549-576 | the number of leading zero bits of a word, 32 for zero |
| Scaling.DShift | so3/lib/strtod.c:1235-1242 | a shift below 32 that together with p2 aligns the divisor |
| Scaling.ShiftAligns | so3/lib/strtod.c:1228-1242 | after shifting by p2 plus that amount the top word has exactly four leading zero bits |
| Division.QuotientEstimate | so3/lib/strtod.c:1264-1273 | the quotient guessed from the top words is at most 9, never too big and short by at most one |
| Division.Quorem | so3/lib/strtod.c:1248-1341 | for b < 10*S with four leading zero bits in S: q <= 9, old b = q*S + new b, 0 <= new b < S, and exactly when no word is left |
| DigitComparison.S2B | so3/lib/strtod.c:514-545 | the value of nd digits, skipping the point at nd0, starting from the first nine |
| DigitComparison.DigitDecides | so3/lib/strtod.c:1491-1510 | what one quotient digit says about the whole comparison, for every digit string and every ratio |
| DigitComparison.CompareDigits | so3/lib/strtod.c:1480-1514 | the sign of 0.s1...sn - b/d is exact if and only if the case LostZero does not arise; in that case the answer is "less" for "equal" |
| DigitComparison.LostZeroExample | so3/lib/strtod.c:1498-1502 | 0.5 against 2^26/2^27 is such a case: a one-word divisor and an exact tie leave no word, which the test for zero misses |
| Rounding.Midpoint | so3/lib/strtod.c:1425-1435 | doubling and setting the low bit gives 2b + 1, the midpoint in half units |
| Rounding.ScaleOperands | so3/lib/strtod.c:1437-1478 | numerator and denominator of the midpoint over the power of ten, with the divisor aligned for the division |
| Rounding.ScalingKeepsRatio | so3/lib/strtod.c:1419-1478 | the scaled ratio compared with the digits is the ratio of numeral to midpoint, for every exponent on either side |
| Rounding.NoLostZero | so3/lib/strtod.c:1419-1514 | with the mantissa and exponent of a double, a one-word divisor and an exact tie exclude each other, so the flaw above cannot show |
| Rounding.CompareWithMidpoint | so3/lib/strtod.c:1412-1514 | dd is the exact sign of numeral minus midpoint |
| Rounding.NearestEven | so3/lib/strtod.c:1412-1520 | rounding a candidate next to the numeral by this decision gives the nearer neighbour, and the even one at a tie |
| Rounding.Bigcomp | so3/lib/strtod.c:1412-1520 | the approximation moves up exactly when the numeral is above the midpoint, or at it with an odd mantissa |
| NumeralParser.ScanSignificand | so3/lib/strtod.c:1580-1612 | start of the significant digits, their number, the length of the fraction and whether zeros were skipped, with or without a point |
| NumeralParser.NineDigitExponent | so3/lib/strtod.c:1655-1669 | with at most nine digits after leading zeros the 32-bit accumulation of the exponent does not wrap |
| NumeralParser.ScanExponent | so3/lib/strtod.c:1633-1676 | the clipped exponent and the end of the numeral; an exponent mark without digits is not part of it |
| NumeralParser.StripZeros | so3/lib/strtod.c:1687-1701 | the trailing zeros dropped, across the point |
| NumeralParser.Parse | so3/lib/strtod.c:1567-1727 | rejected exactly for no digits or too many; zero; otherwise first and last digit are nonzero and digits times 10^e equal the text's value at the clipped exponent |
| NumeralTexts.ReadPlain | so3/lib/strtod.c:1567-1632 | a significand put together from sign, digits and point is read back part by part and ends where it was made to end, also before a mark without exponent digits |
| NumeralTexts.ReadExponent | so3/lib/strtod.c:1567-1676 | the same with an exponent: either mark, any sign, any digits |
| NumeralTexts.SpelledValue | so3/lib/strtod.c:1652-1658 | a number spelled in decimal as vsprintf spells it is read as that number |
| NumeralTexts.ExponentIs | so3/lib/strtod.c:1633-1676 | an exponent spelled k counts k, behind a minus sign -k, and below 10^9 it is not clipped |
| NumeralTexts.ExponentsDiffer | so3/lib/strtod.c:1678-1727 | of two texts with the same digits the exponents handed on differ exactly as the clipped exponents do: the summary is unique |
| NumeralTexts.ParseThree | so3/lib/strtod.c:1567-1727 | one significand without exponent, with k and with -k, for every k below 10^9: e, e + k and e - k, or all three rejected |
| Clipping.ClippingExact | so3/lib/strtod.c:1633-1676 | for every accepted numeral: clipping the exponent changes the rounding decision for no double if and only if the exponent has at most nine significant digits, or the value is zero, or is at least the midpoint above the largest double (positive exponent), or at most half the smallest (negative exponent) |
| Clipping.FewerDigitsSafe | so3/lib/strtod.c:161-169 | what the comment on the limits hopes for: with 400 digits less than the limits admit, clipping changes no decision, whatever the exponent |
| Clipping.ClippedText | so3/lib/strtod.c:161-169 | at the limits themselves it can: a text with a billion digits behind the point whose value is one is accepted, and with its exponent clipped moves the double one up |
| Strtod.SummaryRounds | so3/lib/strtod.c:1567-1727 | rounding by the parser's summary is rounding at the clipped exponent, and rounding by the text's own value for every double wherever clipping is safe |
| Strtod.DecideRounding | so3/lib/strtod.c:1412-1727 | from text to decision: sign, end, rejection and zero are the text's; for a number the summary stands for the text at the clipped exponent, bigcomp rounds up exactly when that says so, and exactly when the text's own value says so wherever clipping is safe |
| QuickIndex.RemoveInner | so3/mm/heap.c:146-208 | unlinking an inner chunk keeps the two-level list linked, with correct head pointers |
| QuickIndex.RemoveFirst | so3/mm/heap.c:146-208 | unlinking the first of several chunks of a size makes the second the head of its class |
| QuickIndex.RemoveOnly | so3/mm/heap.c:146-208 | unlinking the only chunk of a size removes the class |
| QuickIndex.AppendLinked | so3/mm/heap.c:213-286 | a chunk at the end of its class keeps the list linked |
| QuickIndex.InsertLinked | so3/mm/heap.c:213-286 | a new class between its neighbours keeps the list linked |
| Tiling.Conservation | so3/mm/heap.c:367-560 | blocks that tile a region account for all its bytes |
| Tiling.AllFree | so3/mm/heap.c:291-361 | with nothing allocated and no two free blocks adjacent, one free block is all there is |
| Tiling.DisjointBlocks | so3/mm/heap.c:367-560 | different blocks of a tiling occupy disjoint stretches, headers included |
| Tiling.AllocatedPayload | so3/mm/heap.c:447-488 | an allocation's payload lies behind its own header inside its own block, apart from every other block, also with padding |
| Tiling.MaskRoundsUp | so3/mm/heap.c:417-427 | adding the alignment less one and masking with its two's complement, in words of any width that holds the address, is rounding up to a multiple |
| KernelHeap.Heap.constructor | so3/mm/heap.c:47-67 | one free chunk over the whole region, indexed by the quick list |
| KernelHeap.Heap.RemoveChunk | so3/mm/heap.c:146-208 | exactly the given chunk leaves the index; sizes are neither read nor changed |
| KernelHeap.Heap.AppendChunk | so3/mm/heap.c:213-286 | exactly the given chunk joins the index, as the last of its class, class sizes strictly increasing and equal within a class |
| KernelHeap.Heap.FindVictim | so3/mm/heap.c:387-445 | the last chunk of the first class whose last chunk fits request and padding, and NULL only if no class has one |
| KernelHeap.Heap.Carve | so3/mm/heap.c:447-488 | the victim becomes one allocated block and, if enough is left, one free block that is the last of its class; nothing outside it changes |
| Tiling.AllocatedSplits | so3/mm/heap.c:454-470 | a chunk with more than a header to spare is cut right behind the payload and the rest stays free, any other is handed out whole: blocks and free bytes to the byte |
| Tiling.SplitWaste | so3/mm/heap.c:454-470 | so no allocation keeps more than a header's worth beyond request and padding |
| KernelHeap.Heap.Malloc | so3/mm/heap.c:367-488 | NULL if and only if no class's last chunk fits; otherwise the first aligned address in the last chunk of the smallest class that fits, the chunk split exactly if more than a header is left, with the whole invariant kept |
| KernelHeap.Heap.MergePair | so3/mm/heap.c:309-347 | two free neighbours become one block of their joint size, although sizes change before unlinking |
| KernelHeap.Heap.MergeChunks | so3/mm/heap.c:291-361 | terminates with no two free blocks adjacent and the allocated blocks untouched; the joint block covers the given chunk and is the last of its class |
| KernelHeap.Heap.Free | so3/mm/heap.c:514-560 | panics if and only if the pointer is not null and the word before it is not the signature, and then changes nothing; otherwise exactly the given block leaves the allocated ones, its bytes are part of a free block that is the last of its class, the whole invariant is kept, and the signature of an unpadded block is gone, so that freeing it again panics |
| HeapRuns.AllocStep | so3/mm/heap.c:367-488 | refused, with grants and blocks as before, if and only if no class can serve the request; otherwise a new grant, carved from the last chunk of the first class that can, and every grant keeps its own block |
| HeapRuns.ReleaseStep | so3/mm/heap.c:514-560 | one release takes away exactly that grant and exactly the block behind it; an address not granted changes nothing |
| HeapRuns.BackedDisjoint | so3/mm/heap.c:367-560 | payloads handed out do not overlap each other or each other's headers, and are aligned and inside the region |
| HeapRuns.BackedApart | so3/mm/heap.c:367-560 | every grant has a block of its own, larger than needed by at most a header, and every other block, free ones and their headers included, lies apart from it |
| HeapRuns.AllReleased | so3/mm/heap.c:291-361 | with everything released the index is a single chunk of the region less one header |
| HeapRuns.Run | so3/mm/heap.c:47-560 | for every sequence of allocations and releases from heap_init: one answer per call, every intermediate heap valid with its grants apart from all other blocks, every call doing what its step promises, the grants those answered and not released, payloads disjoint, aligned and inside the region, and the initial heap again once all are released |
| HeapRefusals.RefusalExact | so3/mm/heap.c:387-445 | a request of any size is refused exactly if no free chunk could serve it, if and only if no free chunk offers more bytes at that alignment than the last chunks do |
| HeapRefusals.LargeEnough | so3/mm/heap.c:387-445 | a free chunk larger than the request by the alignment less one always suffices |
| HeapRefusals.RefusedWithRoom | so3/mm/heap.c:387-445 | every run of five given calls ends with a heap that refuses 64 bytes although a free chunk could serve them |
| HeapRefusals.ReleasedIsServed | so3/mm/heap.c:367-560 | in every run, what is released and asked for again right away, with the same size and alignment, is served |
| SortSpec.MergeSorted | so3/lib/list_sort.c:16-42 | merging an older with a newer sorted run gives a sorted, stable run |
| SortSpec.SizesStep | so3/lib/list_sort.c:139-182 | counting up by one joins two runs of 2^t exactly when bits are set above the trailing ones, on sizes |
| SortSpec.SixStates | so3/lib/list_sort.c:155-170 | how many runs of size 2^k are pending, from bit k, the bit below and the bits above: the six states, for every count and k |
| SortSpec.FinalMergesBalanced | so3/lib/list_sort.c:178-182 | every final merge is at worst two to one |
| SortSpec.PendingSizes | so3/lib/list_sort.c:216-239 | the runs in the pending list have the sizes the bits of count say |
| SortSpec.EqualMerges | so3/lib/list_sort.c:220-231 | a merge of the input loop always finds two runs, of 2^t elements each: never a null link |
| SortSpec.PendingSegments | so3/lib/list_sort.c:198-239 | the pending runs are sorted and cover the input so far, segment by segment, newest first |
| SortSpec.SortCorrect | so3/lib/list_sort.c:185-254 | every element once, whatever cmp answers; sorted and stable if cmp is a total preorder |
| ListSort.ListMemory.Compare | so3/lib/list_sort.c:7-8 | the answer for the two elements by their place in the input; the log of calls grows by exactly this pair |
| ListSort.SelfCallsAre | so3/lib/list_sort.c:79-95 | the loop that restores the back links calls cmp on every 256th element with itself and on no other |
| ListSort.SelfCallsExact | so3/lib/list_sort.c:79-95 | all calls have the strictly earlier element first if and only if fewer than 256 elements are left when one run of the last merge ends |
| ListSort.SortedInputSelfCalls | so3/lib/list_sort.c:79-95 | an input of 768 or more elements already in order, no earlier element sorting after a later one, is a case where they do not |
| ListSort.ShortInputNoSelfCalls | so3/lib/list_sort.c:79-95 | up to 256 elements they always do, whatever cmp answers |
| ListSort.ListMemory.Merge | so3/lib/list_sort.c:16-42 | the linked merge is the merge of the runs, touches no other node and calls cmp with the strictly earlier element first only |
| ListSort.ListMemory.FindTail | so3/lib/list_sort.c:216-222 | the walk over the trailing ones ends at the link that leads to the runs to merge |
| ListSort.ListMemory.MergeIndicated | so3/lib/list_sort.c:223-231 | the pending list with the two runs replaced by their merge, all other runs and links intact |
| ListSort.ListMemory.Round | so3/lib/list_sort.c:216-239 | one round takes the pending list from n to n + 1 elements |
| ListSort.ListMemory.MergePendingRuns | so3/lib/list_sort.c:241-251 | the pending runs merged from the newest to all but the oldest |
| ListSort.ListMemory.MergeFinal | so3/lib/list_sort.c:51-99 | the last merge with every next and prev link of the circle restored; calls with the earlier element first, then exactly the self-calls for what was left of one run |
| ListSort.ListMemory.Sort | so3/lib/list_sort.c:184-254 | from any circular list to the circular list in sorted stable order, short lists included; calls with the strictly earlier element first, then exactly the self-calls for the remainder of the last merge, and none below two elements |
| MutexProtocol.StepInv | so3/kernel/mutex.c:30-148 | every step keeps exclusion, the record of owner and nesting, the wait list and the wake-ups, except exactly a recursive lock past 2^32 levels |
| MutexProtocol.EveryRun | so3/kernel/mutex.c:30-172 | the invariant in every state of every interleaving of any number of threads from mutex_init |
| MutexProtocol.CallsCounted | so3/kernel/mutex.c:30-129 | in every run the nesting of a thread is the number of its lock calls less that of its unlock calls, but for a call on its way |
| MutexProtocol.StillHeld | so3/kernel/mutex.c:30-129 | so a thread with more lock than unlock calls behind it is the holder, with recursive_count one below the difference |
| MutexProtocol.LockOutcome | so3/kernel/mutex.c:30-77 | a lock call returns at once if and only if the mutex is free or the caller's; otherwise the caller is last on the wait list and nothing else changed hands |
| MutexProtocol.RetryOutcome | so3/kernel/mutex.c:53-92 | a woken thread gets the mutex if and only if it is free, and is last on the wait list again otherwise |
| MutexProtocol.LockUnlock | so3/kernel/mutex.c:30-147 | lock and unlock by one thread leave a free mutex without waiters as it was, but for the owner noted |
| MutexProtocol.HandOver | so3/kernel/mutex.c:53-148 | with the mutex free and threads asleep, at most two steps, wakes and retries only, hand it to a thread already woken or to the first of the wait list |
| MutexProtocol.WokenInOrder | so3/kernel/mutex.c:69-71 | first come, first woken: a thread at place i of the wait list is woken by the (i + 1)-th wake step at the latest, in every run |
| MutexProtocol.UnlockExact | so3/kernel/mutex.c:100-129 | on a held mutex mutex_unlock keeps the invariant if and only if the caller is the holder, whether it counts down or releases |
| MutexProtocol.ForeignUnlock | so3/kernel/mutex.c:100-129 | called by another thread it loses the count of a nested mutex and frees any other while it is held, in every state |
| MutexProtocol.OverflowArises | so3/kernel/mutex.c:48-51 | 2^32 lock calls of one thread reach the state where the next one breaks the invariant |
| MutexProtocol.Mutex.constructor | so3/kernel/mutex.c:165-172 | free, no owner, no waiters |
| MutexProtocol.Mutex.LockEnter | so3/kernel/mutex.c:30-77 | mutex_lock up to its return or first sleep; returns exactly when the caller holds the mutex |
| MutexProtocol.Mutex.LockRetry | so3/kernel/mutex.c:78-98 | mutex_lock from a wake-up to its return or next sleep |
| MutexProtocol.Mutex.UnlockEnter | so3/kernel/mutex.c:100-115 | nested unlocks only count down; the owner never meets the BUG_ON |
| MutexProtocol.Mutex.ReleaseCount | so3/kernel/mutex.c:129-129 | after the write nobody holds the mutex |
| MutexProtocol.Mutex.WakeFirst | so3/kernel/mutex.c:131-147 | the longest waiting thread is made ready |
| BottomHalf.StepInv | so3/devices/irq.c:44-118 | every interrupt and every worker step keeps the correspondence of workers and flags, the mask discipline and the debt of unserved requests |
| BottomHalf.EveryRun | so3/devices/irq.c:44-118 | at most one active worker per interrupt and nothing pending or unserved without one, in every interleaving from irq_init |
| BottomHalf.RequestsCounted | so3/devices/irq.c:81-118 | the requests recorded are those made, in every run |
| BottomHalf.StepCounts | so3/devices/irq.c:48-118 | a request counts as served only from a call of the deferred function on, which covers all made before it |
| BottomHalf.Served | so3/devices/irq.c:48-118 | every IRQ_BOTTOM request is followed by a start of the deferred function, within five steps of the worker whatever is interleaved |
| BottomHalf.Leaves | so3/devices/irq.c:48-76 | without new requests a worker has reset thread_active after ten of its steps at the latest, whatever is interleaved |
| BottomHalf.NoDeadlock | so3/devices/irq.c:48-70 | with interrupts off the masking worker can move; with them on every live worker can |
| BottomHalf.IrqDescriptors.constructor | so3/devices/irq.c:208-224 | no interrupt pending, no worker active |
| BottomHalf.IrqDescriptors.Process | so3/devices/irq.c:81-118 | the request is recorded and a worker started exactly if none is active |
| BottomHalf.IrqDescriptors.TestPending | so3/devices/irq.c:48-48 | the loop test; the first one, with interrupts on, always finds the flag set |
| BottomHalf.IrqDescriptors.ClearPending | so3/devices/irq.c:50-50 | the flag cleared before the deferred function |
| BottomHalf.IrqDescriptors.EnableIrqs | so3/devices/irq.c:52-70 | interrupts on again |
| BottomHalf.IrqDescriptors.CallDeferred | so3/devices/irq.c:55-55 | all requests so far precede this call |
| BottomHalf.IrqDescriptors.DisableIrqs | so3/devices/irq.c:57-57 | interrupts off before the next test |
| BottomHalf.IrqDescriptors.Leave | so3/devices/irq.c:67-67 | thread_active is reset only with nothing pending, nothing unserved and interrupts off |
| Scheduling.FirstRunnableIs | so3/kernel/schedule.c:383-400 | a ready thread whose process can run, with none such before it; nothing exactly if there is none |
| Scheduling.HighestIs | so3/kernel/schedule.c:345-357 | the first ready thread of the highest priority if that is strictly above the running one |
| Scheduling.ScheduleInv | so3/kernel/schedule.c:407-482 | a completed schedule call restores the invariant and leaves a RUNNING current thread, from the middle of waiting() too, under both policies |
| Scheduling.ReadyInv | so3/kernel/schedule.c:96-132 | ready keeps the invariant if and only if the thread is neither READY nor current |
| Scheduling.ReadyOnCurrent | so3/kernel/schedule.c:96-132 | ready on the current thread, then schedule, under both policies: the invariant holds again if and only if the thread is not the one chosen; if it is, it ends READY and in no queue |
| Scheduling.ChosenAgainArises | so3/kernel/schedule.c:96-132 | such a state is reached by creating one thread and dispatching it, under both policies |
| Scheduling.ScheduleTop | so3/kernel/schedule.c:329-482 | fixed priorities: after a completed schedule call no ready thread has a higher priority than the one that runs |
| Scheduling.EveryPriorityRun | so3/kernel/schedule.c:329-482 | so at the end of every run whose last step completes a schedule call |
| Scheduling.EveryRun | so3/kernel/schedule.c:96-482 | in every run from scheduler_init the ready queue holds exactly the READY threads once each, and no non-idle thread but the current one is RUNNING |
| Scheduling.Dispatched | so3/kernel/schedule.c:374-482 | round robin: a ready thread at position i whose process stays runnable gets the CPU within i + 1 completed schedule calls |
| Scheduling.SparedStaysRunnable | so3/kernel/schedule.c:388-388 | scheduling itself never makes a waiting thread unrunnable: only a change of its process state from outside does |
| Scheduling.ScheduleKeepsRunnable | so3/kernel/schedule.c:455-469 | a completed schedule call leaves every runnable thread runnable |
| ThreadStates.WakeEffect | so3/kernel/schedule.c:215-224 | a WAITING thread becomes READY and the last of the queue, any other is left alone, and nothing else changes |
| ThreadStates.StepDiagram | so3/kernel/schedule.c:96-482 | every step moves every thread along one state diagram: who becomes READY, RUNNING, WAITING or ZOMBIE, who is created, removed or recorded as zombie, with priority and process kept |
| ThreadStates.SpaceEffect | so3/kernel/schedule.c:455-469 | a process that gets its page table loaded is RUNNING and the one left is READY unless it waits or is a zombie; all others keep their state |
| ThreadStates.RoundRobinPicks | so3/kernel/schedule.c:374-401 | the first thread of the queue without a process or with one that is READY or RUNNING; the idle thread only if there is none |
| ThreadStates.WokenRuns | so3/kernel/schedule.c:215-482 | round robin: a woken thread whose process stays runnable gets the CPU within one completed schedule call more than threads were ready |
| Scheduling.Scheduler.constructor | so3/kernel/schedule.c:552-601 | the idle thread exists outside the ready queue and no thread is current |
| Scheduling.Scheduler.MakeReadyNow | so3/kernel/schedule.c:96-132 | READY and last in the queue |
| Scheduling.Scheduler.WakeUpNow | so3/kernel/schedule.c:215-224 | only a WAITING thread is made ready |
| Scheduling.Scheduler.RemoveReady | so3/kernel/schedule.c:229-260 | the thread leaves the queue, the others keep their order; BUG exactly if it was not there |
| Scheduling.Scheduler.NextRoundRobin | so3/kernel/schedule.c:374-401 | the loop finds the first runnable thread and takes it out |
| Scheduling.Scheduler.NextPriority | so3/kernel/schedule.c:329-365 | the loop finds the highest priority and takes the thread out unless it is the running one |
| Scheduling.Scheduler.ScheduleNow | so3/kernel/schedule.c:407-482 | the queue, the states, the current thread and the process states after a completed call |
| Scheduling.Scheduler.SwitchProcess | so3/kernel/schedule.c:455-469 | loading another page table moves the two process states |
| Scheduling.Scheduler.WaitNow | so3/kernel/schedule.c:138-150 | the current thread is WAITING and another one runs |
| Scheduling.Scheduler.ZombieNow | so3/kernel/schedule.c:155-171 | the current thread is ZOMBIE and in the zombie list |
| DecimalDigits.CanonicalUnique | so3/lib/vsprintf.c:260-295 | digits without leading zeros are determined by their value: the reference put_dec is measured against |
| DecimalDigits.TenThousandth | so3/lib/vsprintf.c:212-226 | the multiply-and-shift is the exact quotient by 10000 below 1,128,869,999 |
| DecimalDigits.TenThousandthFails | so3/lib/vsprintf.c:212-217 | and is off at 1,128,869,999 itself |
| DecimalDigits.Regroup | so3/lib/vsprintf.c:273-287 | the sixteen-bit parts regroup to n in base 10000 and no intermediate value exceeds 1,125,520,955 |
| DecimalDigits.LargestAsked | so3/lib/vsprintf.c:216-217 | that value is reached |
| DecimalDigits.PutDecFull4 | so3/lib/vsprintf.c:200-210 | four digits, lowest first |
| DecimalDigits.PutDecHelper4 | so3/lib/vsprintf.c:220-226 | the low four digits to the buffer, the exact quotient returned |
| DecimalDigits.PutDecTrunc8 | so3/lib/vsprintf.c:233-258 | all digits below 10^8 without leading zeros |
| DecimalDigits.PutDec | so3/lib/vsprintf.c:266-295 | exactly the decimal digits of every 64-bit n, lowest first, without leading zeros |
| NumberText.StrToULL | so3/lib/vsprintf.c:147-173 | the longest run of digits after the prefix, modulo 2^64, and where it ends |
| NumberText.RoundTrip | so3/lib/vsprintf.c:147-173 | the digits of any 64-bit n in base 8, 10 or 16 read back as n |
| NumberText.PrefixedRoundTrip | so3/lib/vsprintf.c:151-160 | with the prefix of the SPECIAL flag the number reads back in base 0, zero included |
| NumberText.PrefixedOwnBase | so3/lib/vsprintf.c:147-173 | the same when the base is given: the prefix is skipped in base 16 and harmless in base 8 |
| NumberText.GenerateDigits | so3/lib/vsprintf.c:337-358 | the digits of a 64-bit number in base 8, 10 or 16, at most 64 of them |
| NumberText.Number | so3/lib/vsprintf.c:298-420 | padding, sign, prefix, precision zeros and digits in their order, cut off at the end of the buffer, 16-bit wrap included |
| FieldLayout.FieldIs | so3/lib/vsprintf.c:360-417 | where no width wraps: blanks before the sign without LEFT and ZEROPAD, zeros between prefix and digits with ZEROPAD, blanks at the end with LEFT, as many as the field is wider than its contents and nowhere else |
| FieldLayout.SignIs | so3/lib/vsprintf.c:316-329 | minus for negative numbers, otherwise what PLUS, then SPACE ask for, and the magnitude that goes with it |
| FieldLayout.PrefixIs | so3/lib/vsprintf.c:330-390 | 0 for nonzero octal, 0x or 0X for every hexadecimal number, with SPECIAL only |
| FieldLayout.LetterCase | so3/lib/vsprintf.c:311-388 | all letters of a text are in the case SMALL asks for |
| NumberText.PlainText | so3/lib/vsprintf.c:298-420 | the text is exactly the digits if and only if neither sign, prefix, precision nor width adds to them, wrapped widths included |
| NumberText.UnpaddedText | so3/lib/vsprintf.c:298-420 | it is sign, prefix and digits if and only if neither precision nor width adds padding |
| NumberText.TextLength | so3/lib/vsprintf.c:360-417 | the length of the text in terms of the 16-bit slack, for every width and precision |
| NumberText.TextWidth | so3/lib/vsprintf.c:360-417 | the text is as long as the wider of field and content if and only if the slack stays out of a given interval in which its 16 bits wrap |
| NumberText.WidthWraps | so3/lib/vsprintf.c:360-417 | the largest precision in a field without width is such a case: one digit comes out as a text of 65535 characters |
| NumberText.PrintThenRead | so3/lib/vsprintf.c:147-420 | whatever simple_strtoull makes of a plain text of number, it is the number and the whole text is read |
| NumberText.PrintThenReadAny | so3/lib/vsprintf.c:147-420 | the same in base 0 for a text with the prefix of the SPECIAL flag |
| NumberText.PrintAndRead | so3/lib/vsprintf.c:147-420 | number followed by simple_strtoull: the text between them, the number back and the end of the text |
| NumberText.StrToLL | so3/lib/vsprintf.c:181-186 | the sign applied to the unsigned result in 64 bits |
| NumberText.PrintThenReadSigned | so3/lib/vsprintf.c:181-420 | whatever simple_strtoll makes of a text with the SIGN flag, it is the signed number, the most negative one included |
| NumberText.PrintAndReadSigned | so3/lib/vsprintf.c:181-420 | number with the SIGN flag followed by simple_strtoll: the text between them and the signed number back |
| Bits.ShiftsAndMasks | so3/kernel/bitmap.c:110-178 | shifting right, shifting left and masking are quotient, product and remainder by powers of two |
| Bitmap.RightWordBits | so3/kernel/bitmap.c:116-136 | which source bit every bit of a result word receives, for any word size |
| Bitmap.LeftWordBits | so3/kernel/bitmap.c:158-175 | the same for the left shift |
| Bitmap.ShiftRight | so3/kernel/bitmap.c:110-139 | bit by bit: position j receives j + shift if that is in the bitmap and zero otherwise, in place or not, other words untouched |
| Bitmap.ShiftLeft | so3/kernel/bitmap.c:153-178 | bit by bit: position j receives j - shift, bits past the bitmap are zero, in place or not |
| Bitmap.DownAndUp | so3/kernel/bitmap.c:99-178 | right and back left keeps exactly the bits from shift on |
| StringEscape.UnescapeShorter | so3/lib/string_helpers.c:193-197 | the unescaped form is never longer than the input |
| EscapeForms.HexForms | so3/lib/string_helpers.c:120-142 | one or two hexadecimal digits in either case, the second whenever there is one |
| EscapeForms.OctalForms | so3/lib/string_helpers.c:101-118 | up to three octal digits, the third only while the value is below 32 |
| EscapeForms.LetterForms | so3/lib/string_helpers.c:73-169 | the nine letter sequences and the bytes they stand for |
| EscapeForms.OpensExactly | so3/lib/string_helpers.c:73-169 | which bytes after a backslash open a sequence, for every set of classes |
| EscapeForms.KeptBackslash | so3/lib/string_helpers.c:211-234 | a backslash that opens none stays together with the byte behind it, and other bytes are copied |
| EscapeForms.UnescapeFits | so3/lib/string_helpers.c:207-239 | the result and its terminator fit the size given |
| StringEscape.OneBack | so3/lib/string_helpers.c:207-238 | the escape of one byte reads back as that byte whatever follows, unless it is the short escape of null before an octal digit |
| StringEscape.RoundTrip | so3/lib/string_helpers.c:207-239 | escaping with safe flags and dictionary, then unescaping everything, gives the bytes back, for any sufficient size |
| StringEscape.RoundTripExact | so3/lib/string_helpers.c:207-501 | for every set of flags and every dictionary: all strings survive if and only if backslash and null are escaped and no octal digit follows a short escape of null unescaped |
| StringEscape.CompleteIsSafe | so3/lib/string_helpers.c:407-501 | without a dictionary that is: OCTAL or HEX, and not NP |
| StringEscape.NulThenDigit | so3/lib/string_helpers.c:324-341 | whatever the flags, an unescaped octal digit is swallowed by a short escape of null before it: one byte comes back for two |
| StringEscape.FourTimes | so3/lib/string_helpers.c:435-510 | four times the input size is always enough room |
| StringEscape.StringUnescape | so3/lib/string_helpers.c:207-239 | the unescaped form and its length, null-terminated, also when source and destination are the same buffer |
| StringEscape.EscapeByte | so3/lib/string_helpers.c:442-501 | the classes in their order; an error exactly when the room the tried classes ask for is missing |
| EscapeForms.EscapeForm | so3/lib/string_helpers.c:256-501 | the form of every byte: letter, null, three octal digits or two lower-case hexadecimal ones that spell its value, or the byte itself, in the order of the classes |
| EscapeForms.SparedIs | so3/lib/string_helpers.c:444-457 | what is left as it is: printable bytes with NP, bytes outside a dictionary, never null |
| EscapeForms.RoomExact | so3/lib/string_helpers.c:241-379 | one byte more than is written is asked for exactly when a byte is copied after a two-byte class was tried |
| EscapeForms.ProcessedIs | so3/lib/string_helpers.c:435-510 | processing stops at the first byte that does not find the room it asks for |
| StringEscape.StringEscapeMem | so3/lib/string_helpers.c:435-510 | the escaped form of as many bytes as fit, and -ENOMEM exactly if not all did |
| StringEscape.EscapeAndBack | so3/lib/string_helpers.c:207-510 | a whole buffer escaped and unescaped in place: the escaped form, and the bytes back with their length |
| Clocks.CalcMultShift | so3/kernel/timer.c:124-151 | the largest shift up to 32 that passes, with its own multiplier; none exactly if shift 1 fails, and then the pair is shift 0 with the multiplier of shift 1 |
| Clocks.PassesExactly | so3/kernel/timer.c:128-147 | a shift is accepted if and only if its multiplier times the least power of two above the upper half of the range is below 2^32 |
| Clocks.LargerOverflows | so3/kernel/timer.c:109-122 | a shift that is not accepted would need a multiplier of more than 32 bits or give products of 2^63 and more in range |
| Clocks.FailingPair | so3/kernel/timer.c:124-151 | from 1 Hz to the highest 32-bit frequency no shift passes, and the pair returned is shift 0 with the multiplier of shift 1 |
| Clocks.LimitShift | so3/kernel/timer.c:132-136 | 32 less the bit length of the upper half of the cycle range |
| Clocks.NumeratorFits | so3/kernel/timer.c:143-144 | no intermediate value of the search leaves 64 bits |
| Clocks.NoOverflow | so3/kernel/timer.c:109-122 | an accepted multiplier fits 32 bits and cycles * mult stays below 2^64 for every cycle count in range |
| Clocks.Accuracy | so3/kernel/timer.c:142-147 | the scaled count is within cycles / 2^(shift + 1) of cycles * to / from |
| Clocks.Nearest | so3/kernel/timer.c:142-147 | the multiplier is the nearest integer, the larger one at a tie |
| Clocks.ScaledMonotone | so3/kernel/timer.c:142-148 | a larger shift never gives a smaller multiplier |

## Left out

- IEEE double arithmetic of `strtod` and `dtoa` (`b2d`, `ratio`, `ulp`, the correction loop, `__dtoa`, `sd2b`): no floating-point model; what `sd2b` promises about mantissa and exponent is a precondition of the comparison.
- Balloc and Bfree: a Bigint is fresh storage of capacity 2^k, so the NULL returns on a failed allocation and the free lists are not modelled; the 16-bit variants of the word loops and the `int` width of k are not modelled either.
- Parsing of "inf" and "nan", and what follows the parser in `strtod`.
- `realloc`, `calloc` and payload bytes: the heap model keeps headers only, addresses are integers that do not wrap, and headers left behind in memory by a moved header are not looked at again.
- KernelHeap.Heap.Malloc: alignments that are not powers of two, which the code's comment excludes, are not modelled.
- KernelHeap.Heap.Free: what lies before the pointer is a parameter, as payload bytes are not modelled; bytes that spell the signature although the pointer is not one that `malloc` returned and that is still allocated are excluded, because the code has no way to tell.
- HeapRuns.Run: releases of addresses that are not granted are ignored rather than passed to `free`, where what they do depends on payload bytes.
- ListSort.ListMemory.Sort: `size_t` is unbounded; a list cannot have more elements than addresses.
- Spinlocks, SMP, interrupt enabling and context switches: one CPU, atomic stretches.
- MutexProtocol.Mutex.LockEnter: joining the wait list and going to sleep is one step, as interrupts are off in between.
- Early returns of `schedule` (boot stage, nested call): they change nothing and are not steps.
- CONFIG_SCHED_PRIO_DYN: depends on time.
- `remove_zombie`, thread creation beyond its effect on the queues, and process states beyond what `schedule` reads and writes.
- Binding and unbinding of interrupts while a worker runs.
- printf format decoding, `%p` extensions and varargs.
- Bitmap.ShiftRight: source and destination that overlap without being the same array.
- Bitmap operations other than the two shifts: word-wise loops without carries.
- Completions, semaphores, pipes, timers and softirqs.
- VFS, devices, ELF loading, device tree, fork, exec, ptrace, signals and system calls.
