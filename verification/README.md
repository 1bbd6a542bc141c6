# Verified models of abel's hard components

abel is a C++ base library. This project models the eight parts of it whose correctness is least
obvious from reading one function, and proves what they are for:

- the cycle-counter clock: calibration arithmetic (`ClockSample.dfy`) and the sequence lock under
  every interleaving (`SeqLock.dfy`);
- the intrusive circular list, rewired in place (`IntrusiveList.dfy`), with its merge sort stated on
  sequences (`MergeSort.dfy`);
- saturating durations (`Duration.dfy`);
- the UTF-8 / UTF-16 codec (`Utf8.dfy`);
- the chunked queue `array_list` (`ArrayList.dfy`);
- the ring deque `circular_buffer` (`CircularBuffer.dfy`), whose slot arithmetic it shares with the
  chunks of the queue (`Slots.dfy`);
- base64 (`Base64.dfy`).

`Machine.dfy` holds what C++ integers do: widths, wrap-around, truncating division, powers of two;
`Wrappers.dfy` the option type.

`dafny verify dfyconfig.toml` checks everything.

## How the models are built

Objects that the library updates in place are classes, and loops are loops. A list or queue does not
store its abstract value: its methods take the current value as ghost arguments, and `Holds(n)` says
that the heap represents `n`. The lemma `HoldsIsUnique` shows that the heap determines `n`. Each
method states the complete new value as a function of the old one, and lemmas about those functions
state what they mean.

Durations are specified by the integer number of quarter-nanosecond ticks (`Rank`), exact integer
arithmetic, and one saturation at the end. The clock's update is a function on samples (`NextSample`)
which the in-place method refines, which the field-by-field stores of the concurrent model add up to,
and over which the reachable samples are characterised. The concurrent model runs any schedule of
any number of threads, one atomic load, store, lock or unlock per step, on sequentially consistent
memory.

## Where the code misses what it promises

Each of these is proved with its exact condition, and most of them also at an input that fails:

- `floor(d, unit)` is not the greatest multiple of |unit| below d when the unit is the least finite
  duration and d is negative but not that duration itself; for every other finite unit except zero it
  is (`FloorIsGreatestMultiple`, `FloorExample`). `ceil` has no such exception.
- The clock promises that each line segment starts where the last one ended. After a restart or a
  rejected error a segment starts at the kernel time instead. Where one slope replaces another the
  promise holds throughout every run (`SegmentsAlwaysMeet`) until there is a reading of one of two kinds:
  those whose error is the most negative 64-bit number, which the test for errors of 100 ms and more
  lets pass because its negation wraps (`AcceptedError`), and those that would shift by a negative count.
  C++ leaves both undefined; the model lets the negation wrap and takes the result of the shift as an
  input. For a reading of the first kind the new segment starts on the exact line if and only if what
  the shift drops is rounded away (`SegmentsMeet`). `FarSegment` gives two such readings one cycle apart,
  of which one meets and the other misses by 4 ns, and `FartherSegment` one of the second kind.
- A UTF-16 string survives the trip through UTF-8 exactly if it is well formed (`RoundTrip16`);
  converting an unpaired surrogate also drops the unit behind it (`SurrogateExample`).
- `array_list::reserve` promises that n - size() further pushes need no allocation and that pops between
  them do not matter. Two kinds of step give a saved chunk away, when chunks hold more than one item: a
  pop that empties the only chunk, and a push whose constructor throws after it has taken the saved
  chunk. After a step the promise stands for the calls left if and only if the step was neither, or
  there was room for a chunk less one item beyond what was reserved (`ReservationKept`). So it breaks
  where reserving left no such slack (`FailingPushExample`, `PopExample`), and stands where it did
  (`SlackExample`). A run keeps it if every chunk it gives away is covered (`RunWithoutAllocation`).
- Reserving within one chunk of 2^64 elements wraps and reserves nothing (`ReserveGivesRoom`,
  `ReserveExample`), and reserving fewer elements than there are can ask for all of 2^64 less the
  shortfall and the room in the last chunk (`ReserveBelowSize`).
- `array_list::size` is the length unless both outer chunks together hold 2^32 elements (`Size`,
  `SizeExample`).
- The chunk counters of `array_list` are 32-bit and its iterator's index is wider. The number of
  increments that lead from begin() to end() is the length if and only if no live chunk's counters have
  wrapped between begin and end (`IterationEnds`). They have not while fewer than 2^32 elements were
  pushed since the queue was last empty (`FewPushesDoNotWrap`), and they do in a queue that alternates
  pushes and pops without ever becoming empty (`WrappedExample`).
- The documentation of `base64_encode` asks for a line length that is a multiple of 4. The code takes
  any length and rounds it up, which is what is proved (`LinesHaveFullLength`).

## Model

| member | source | states |
|---|---|---|
| Durations.SaturateRank | abel/chrono/time.h:1321-1326 | every valid representation is the only one of its tick count, with the infinities just outside the finite range |
| Durations.LessThanIsTickOrder | abel/chrono/time.h:1451-1460 | the comparison on representations, including the trick of adding one to the ticks, is the order of tick counts with infinities at the ends |
| Durations.NegateIsExact | abel/chrono/time.h:1467-1491 | negation is exact or infinite, swaps the infinities, and is undone by itself for every duration but the least finite one |
| Durations.SumOfInfinities | abel/chrono/duration.cc:392-407 | an infinite left operand stays, an infinite right operand wins over a finite one, and the order matters only between two infinities |
| Durations.DifferenceIsSumOfNegation | abel/chrono/duration.cc:409-426 | subtracting is adding the negation if and only if it is not the least finite duration that is subtracted from a negative finite one |
| Durations.ScaledInfinity | abel/chrono/duration.cc:432-454 | a multiple or fraction of an infinity is the infinity with the product of the signs, and dividing by zero gives the infinity with the dividend's sign |
| Durations.FractionsAreExact | abel/chrono/time.h:1350-1356 | a count of n-ths of a second becomes the exact tick count, truncated toward zero, for every int64 count and every n up to 10^9, without overflow |
| Durations.MultiplesSaturate | abel/chrono/time.h:1357-1368 | counts of minutes and hours saturate exactly when their ticks are not representable |
| Durations.MakeU128 | abel/chrono/duration.cc:102-111 | the magnitude of any int64, including the least, as an unsigned 128-bit number |
| Durations.MakeU128Ticks | abel/chrono/duration.cc:114-126 | the magnitude in ticks of any finite duration |
| Durations.MakeDurationFromU128 | abel/chrono/duration.cc:129-166 | any 128-bit magnitude and sign become the saturated duration of exactly that many ticks |
| Durations.ScaleFixedIsExact | abel/chrono/duration.cc:203-227 | scaling by any int64 equals exact multiplication, or truncated division, of ticks, saturated once, although products are capped on the way |
| Durations.FastPathIsExact | abel/chrono/duration.cc:263-333 | whatever the five recognised denominators answer is the truncated quotient and remainder in ticks |
| Durations.FastPathAgrees | abel/chrono/duration.cc:263-333 | whenever the fast path answers, it answers what the 128-bit path answers, in both saturation modes |
| Durations.FastPathCovers | abel/chrono/duration.cc:263-333 | the fast path answers exactly for finite non-negative numerators below a bound and the four subsecond units, and for any finite numerator over positive whole seconds |
| Durations.WideDivisionIsExact | abel/chrono/duration.cc:356-383 | the 128-bit path gives the truncated quotient, clamped if asked, and the remainder that belongs to the quotient returned |
| Durations.DivisionIdentity | abel/chrono/duration.cc:343-384 | num == den*q + rem in ticks for all finite arguments; rem is zero or has num's sign; it is smaller than den exactly if q was not clamped |
| Durations.DivisionAtLimits | abel/chrono/duration.cc:343-361 | what division gives for a zero or infinite denominator or an infinite numerator |
| Durations.UnclampedQuotient | abel/chrono/duration.cc:356-383 | a quotient that must not saturate has the sign of the exact quotient and differs from it by a multiple of 2^63 |
| Durations.ModIsExact | abel/chrono/duration.cc:464-467 | the remainder is exact however large the quotient would be |
| Durations.ModAtLimits | abel/chrono/duration.cc:351-361 | an infinite dividend or a zero divisor leaves the infinity of the dividend's sign, and an infinite divisor the dividend |
| Durations.TruncIsExact | abel/chrono/duration.cc:491-493 | truncation to a unit never saturates and yields the truncated multiple of the unit |
| Durations.FloorIsGreatestMultiple | abel/chrono/duration.cc:495-498 | floor is the saturated greatest multiple of the unit's magnitude not above d, if and only if the unit is not the least finite duration with d strictly between it and zero |
| Durations.FloorExample | abel/chrono/duration.cc:495-498 | one tick below zero, floored to the least finite duration, gives an infinity although that duration is the multiple |
| Durations.CeilIsLeastMultiple | abel/chrono/duration.cc:500-503 | ceil is the saturated least multiple of the unit's magnitude not below d, for every finite unit but zero |
| Durations.RoundingAtLimits | abel/chrono/duration.cc:491-503 | an infinity stays under all three roundings; with an infinite unit they give zero or the infinity in their direction; with a zero unit the infinity of the opposite sign |
| Durations.SumOverflow | abel/chrono/duration.cc:395-405 | the test made after a wrapping addition with carry fires exactly if the exact sum is not representable, and picks the right infinity |
| Durations.DifferenceOverflow | abel/chrono/duration.cc:412-424 | the same for subtraction with borrow |
| Durations.Duration.AddAssign | abel/chrono/duration.cc:392-407 | the new tick count is the exact sum, saturated; an infinite left operand stays, an infinite right operand wins over a finite one |
| Durations.Duration.SubAssign | abel/chrono/duration.cc:409-426 | the new tick count is the exact difference, saturated; an infinite left operand stays, and subtracting an infinity gives the opposite one |
| Durations.Duration.MulAssign | abel/chrono/duration.cc:432-438 | the new tick count is the exact product, saturated; an infinity stays infinite and is negative if and only if exactly one of it and the scalar was |
| Durations.Duration.DivAssign | abel/chrono/duration.cc:448-454 | the new tick count is the truncated quotient, saturated; dividing by zero or dividing an infinity gives an infinity that is negative if and only if exactly one of the operands was |
| Durations.Duration.ModAssign | abel/chrono/duration.cc:464-467 | the new tick count is the exact truncated remainder; an infinite dividend or a zero divisor gives the infinity of the dividend's sign, an infinite divisor changes nothing |
| ClockSample.SafeDivideAndScale | abel/chrono/clock.cc:343-356 | the decrementing loop stops at the largest shift up to 30 that does not overflow, and a zero scaled divisor gives zero |
| ClockSample.DivideAndScaleBounds | abel/chrono/clock.cc:340-356 | the quotient is at least floor(a*2^30/b), at most (a*2^30/b)*(b'+1)/b' for the scaled divisor b', and exact when the full shift is safe |
| ClockSample.SafeShiftIsLargest | abel/chrono/clock.cc:343-356 | the shift is the largest up to 30 that does not overflow, and a divisor that it shifts away gives zero |
| ClockSample.NextSampleReachable | abel/chrono/clock.cc:416-503 | every update keeps the sample's slope times its interval within 2000*2^20 ns scaled, whatever the clocks say |
| ClockSample.FastPathIsExact | abel/chrono/clock.cc:321-336 | from any such sample the fast path's product does not wrap, its result is the exact line rounded down, and the advance is below the sampling interval |
| ClockSample.AcceptedError | abel/chrono/clock.cc:476-491 | a slope is accepted exactly if it is nonzero and the error is below 100 ms in magnitude, or is the most negative number |
| ClockSample.SegmentsMeet | abel/chrono/clock.cc:437-494 | where a new slope replaces an old one: on the value the fast path computes if the product fits 64 bits; at the shifted advance whenever 30 shifts suffice, and then on the exact line if and only if what the shift drops is rounded away |
| ClockSample.ShiftedAdvanceError | abel/chrono/clock.cc:443-451 | shifting s bits away first loses at most ceil(2^s*slope/2^30) and never gains |
| ClockSample.ShiftedAdvanceIsExact | abel/chrono/clock.cc:443-451 | shifting first gives the exact advance if and only if the dropped cycles' part and the remainder of the division together stay below one nanosecond |
| ClockSample.NeededShiftIsLong | abel/chrono/clock.cc:443-451 | an advance for which the loop has to shift is longer than eleven seconds |
| ClockSample.AcceptedSegmentsMeet | abel/chrono/clock.cc:437-494 | from a sample within 100 ms of kernel time, every accepted slope that replaces another starts, at the cycle just read, on the old line as the fast path computes it, with a product that fits 64 bits, unless the error is the most negative number or the shift is undefined; the new sample is within 100 ms again |
| ClockSample.GuardsAreExact | abel/chrono/clock.cc:430-455 | what the wrapping guards decide: a restart unless the sample is at most five seconds old and neither clock went back, a measurement after more than half a second and fifty cycles; within five seconds of 2^64 ns every call restarts |
| ClockSample.UpdateLaw | abel/chrono/clock.cc:416-503 | every field stored and the time answered, branch by branch: the kernel time and no slope on a restart and on a rejected slope, the kernel time and no change while it is too early, and otherwise the new base, which is within 100 ms of it, with the interval its slope allows |
| ClockSample.LineMeetsTarget | abel/chrono/clock.cc:458-475 | after a step that accepts a slope on an error within 100 ms, the new line reaches the kernel time one interval ahead, less a sixteenth of the error, within one unit of the slope, at a number of cycles that is the interval at the rate measured since the last sample, within rounding that is bounded from both sides |
| ClockSample.SlopeFollowsError | abel/chrono/clock.cc:458-475 | a slope accepted on an error within 100 ms is the measured rate times the target over the interval, within rounding; it is at least the measured rate when the estimate is behind, and at most that rate when it is ahead by more than the rounding hides |
| ClockSample.SlopeIsGivenUp | abel/chrono/clock.cc:476-491 | a measurement ends without a slope on an error of 100 ms or more, and below that if and only if one of the three divisions leaves nothing |
| ClockSample.SteeringExample | abel/chrono/clock.cc:437-494 | one second after a sample, on an estimate that is 10 ms behind: the slope rises from 1 ns per cycle to 1,089,327,242 units of 2^-30 ns |
| ClockSample.FarSegment | abel/chrono/clock.cc:476-494 | two readings whose error passes the test only because its negation wraps: one segment meets although the product does not fit, the other misses by 4 ns |
| ClockSample.FartherSegment | abel/chrono/clock.cc:443-494 | a reading that needs more than 30 shifts and is accepted, for one result of the undefined shift, 2^64 ns off the old line |
| ClockSample.ShiftStaysDefined | abel/chrono/clock.cc:443-451 | a product below 2^94 needs at most 30 shifts |
| ClockSample.CycleClock.SeqAcquire | abel/chrono/clock.cc:170-181 | the word grows by one and the value to release with is the old word plus two |
| ClockSample.CycleClock.SeqRelease | abel/chrono/clock.cc:185-189 | the word becomes the release value |
| ClockSample.CycleClock.SlowPath | abel/chrono/clock.cc:374-411 | under the lock: either interpolation from the current sample with nothing changed, or the calibration step with the word advanced by two |
| ClockSample.CycleClock.UpdateLastSample | abel/chrono/clock.cc:416-503 | the fields are stored one by one and end as the calibration step's sample; the estimate is the step's estimate |
| ClockSample.CycleClock.Extrapolate | abel/chrono/clock.cc:443-451 | the retry loop ends at the first shift whose product does not wrap |
| SeqLock.StoresMakeNextSample | abel/chrono/clock.cc:430-494 | the individual stores of an update, in program order and with the values computed on the way, add up to the calibration step in every branch |
| SeqLock.EveryRunKeepsInv | abel/chrono/clock.cc:280-338 | the protocol invariant holds after every schedule of any number of threads |
| SeqLock.OddWhileWriting | abel/chrono/clock.cc:157-189 | in every run the word is odd exactly while some thread is between acquire and release, at most one thread is, and an even word means that memory holds the result of all completed updates |
| SeqLock.FastReadsAreConsistent | abel/chrono/clock.cc:280-338 | in every run, a lock-free reader that returns from the fast path has read four fields of one completed update, no older than the call, and answers that update's line exactly |
| SeqLock.SlowReadsAreConsistent | abel/chrono/clock.cc:374-411 | in every run, a slow-path call answers exactly along the sample current while it held the lock, or from its own update of it |
| SeqLock.SlowUpdatesAnswer | abel/chrono/clock.cc:416-503 | in every run, an updating slow call answers exactly the kernel time it read when it restarts, has nothing to measure or leaves no slope, and otherwise the time stored for readers, within 100 ms of it unless the error is the most negative number |
| SeqLock.LoneReadIsFast | abel/chrono/clock.cc:280-338 | a read that no other thread disturbs returns on the fast path if and only if no writer is active and the sample is recent enough, and otherwise goes on to the lock; it changes nothing shared |
| SeqLock.LoneSlowCallFinishes | abel/chrono/clock.cc:374-411 | a slow call that finds the lock free finishes within fourteen steps, gives the lock back, and has changed nothing, or the sample and the word by one update |
| SeqLock.HistoryIsSequential | abel/chrono/clock.cc:416-503 | the completed updates are the calibration steps applied to the readings one after the other |
| SeqLock.SequentialRunReachable | abel/chrono/clock.cc:416-503 | every completed sample is one from which the fast path cannot overflow |
| SeqLock.SegmentsAlwaysMeet | abel/chrono/clock.cc:251-278 | in every run, each completed update that replaces a slope starts the new line on the old one, as long as no reading so far was of the two excepted kinds |
| SeqLock.HistoryOnlyGrows | abel/chrono/clock.cc:157-189 | later steps neither rewrite completed updates nor decrease the word |
| IntrusiveLists.IntrusiveList.constructor | abel/container/intrusive_list.h:331-333 | a new list is an empty ring |
| IntrusiveLists.IntrusiveList.Insert | abel/container/intrusive_list.h:479-490 | the ring holds the old elements with x just before pos, and the position of x is returned |
| IntrusiveLists.IntrusiveList.Erase | abel/container/intrusive_list.h:492-504 | the element is gone, its links are null, and the position of its successor is returned |
| IntrusiveLists.IntrusiveList.EraseRange | abel/container/intrusive_list.h:506-524 | the range is gone, all its nodes' links are null, and last is returned |
| IntrusiveLists.IntrusiveList.Swap | abel/container/intrusive_list.h:538-558 | the two anchors exchange their elements, with either or both empty, or the same list twice |
| IntrusiveLists.IntrusiveList.SpliceAll | abel/container/intrusive_list.h:583-598 | all elements of the other list stand before pos, and the other list is empty |
| IntrusiveLists.IntrusiveList.SpliceItem | abel/container/intrusive_list.h:600-621 | one element moves over from another list; both stay rings |
| IntrusiveLists.IntrusiveList.SpliceItemWithin | abel/container/intrusive_list.h:560-581 | one element moves within its list, also when pos is the element itself or its successor |
| IntrusiveLists.IntrusiveList.SpliceRange | abel/container/intrusive_list.h:623-643 | a range moves over from another list; together the two lists keep their nodes |
| IntrusiveLists.IntrusiveList.SpliceRangeWithin | abel/container/intrusive_list.h:623-643 | a range moves within its list to a position outside it; moving it before its own end changes nothing |
| IntrusiveLists.MovedIsWithoutWith | abel/container/intrusive_list.h:623-643 | moving within a list is removing and inserting again |
| IntrusiveLists.IntrusiveList.PopFront | abel/container/intrusive_list.h:308-318 | the first element is unlinked and nulled; an empty list stays a ring |
| IntrusiveLists.IntrusiveList.PopBack | abel/container/intrusive_list.h:320-329 | the same at the other end |
| IntrusiveLists.IntrusiveList.Clear | abel/container/intrusive_list.h:295-306 | the list is an empty ring and every former element's links are null |
| IntrusiveLists.IntrusiveList.Destroy | abel/container/intrusive_list.h:274-277 | the anchor and all elements are unlinked |
| IntrusiveLists.IntrusiveList.Size | abel/container/intrusive_list.h:283-293 | the number of elements |
| IntrusiveLists.IntrusiveList.Reverse | abel/container/intrusive_list.cc:9-17 | the ring holds the elements in reverse order |
| IntrusiveLists.IntrusiveList.Merge | abel/container/intrusive_list.h:679-702 | the list holds the merge of both, ties keeping its own nodes first, and the other list is empty; merging a list into itself changes nothing |
| IntrusiveLists.IntrusiveList.Unique | abel/container/intrusive_list.h:722-739 | exactly the elements that match the last one kept are erased and nulled |
| IntrusiveLists.IntrusiveList.Sort | abel/container/intrusive_list.h:769-804 | for any comparison sorting terminates and leaves a ring of the sorted sequence, built through two temporary lists |
| IntrusiveLists.IntrusiveList.Middle | abel/container/intrusive_list.h:787-790 | the two cursors stop at ceil(n/2), so both halves are smaller than n |
| IntrusiveLists.IntrusiveList.SplitInto | abel/container/intrusive_list.h:792-794 | the halves move to the two temporary lists and this list is empty |
| IntrusiveLists.IntrusiveList.Recombine | abel/container/intrusive_list.h:800-802 | the sorted halves are merged back and both temporary lists are empty |
| IntrusiveLists.IntrusiveList.HoldsIsUnique | abel/container/intrusive_list.h:283-293 | the heap determines the sequence of elements |
| IntrusiveLists.Validate | abel/container/intrusive_list.cc:19-59 | on any finite heap closed under next, the self-checker terminates and answers true if and only if the anchor lies on a well-formed ring |
| MergeSort.SortedIsOrderedPermutation | abel/container/intrusive_list.h:769-804 | for any strict weak order the sorted sequence has the same elements in order |
| MergeSort.SortedIsStable | abel/container/intrusive_list.h:769-804 | equivalent elements keep their order |
| MergeSort.SortedMultiset | abel/container/intrusive_list.h:769-804 | no element is lost or duplicated, whatever the comparison does |
| MergeSort.MergedOrdered | abel/container/intrusive_list.h:679-702 | merging two ordered sequences gives an ordered one |
| MergeSort.MergedStable | abel/container/intrusive_list.h:679-702 | in a merge, equivalent elements stand first list first, each list's in their own order |
| MergeSort.UniquedComparesLastKept | abel/container/intrusive_list.h:722-739 | for any predicate, an element is dropped exactly if the last one kept before it matches it |
| MergeSort.UniquedKeepsRunHeads | abel/container/intrusive_list.h:722-739 | for an equivalence exactly the first element of every run of matching neighbours survives |
| Utf8.ConsumeIsGrammar | abel/filesystem/filesystem.h:1205-1217 | the packed table is the automaton of the grammar in section 4 of RFC 3629, and the code point collects the bytes' payload bits |
| Utf8.EncodeIsPositional | abel/filesystem/filesystem.h:1178-1192 | the length and the bit positions that section 3 of RFC 3629 gives, for every character |
| Utf8.EncodedStringDecodes | abel/filesystem/filesystem.h:1178-1217 | the encodings of any characters decode to those characters |
| Utf8.DecodedStringEncodes | abel/filesystem/filesystem.h:1205-1217 | whatever is accepted is the encoding of the characters decoded |
| Utf8.AcceptsExactlyEncodings | abel/filesystem/filesystem.h:1205-1232 | the decoder accepts exactly the encodings of strings of code points up to 10FFFF without surrogates, and yields them |
| Utf8.ValidUtf8 | abel/filesystem/filesystem.h:1219-1232 | true if and only if the bytes encode some such string |
| Utf8.AppendUtf8 | abel/filesystem/filesystem.h:1178-1200 | the character's encoding is appended, and U+FFFD's for anything that is not a character |
| Utf8.NotACharacter | abel/filesystem/filesystem.h:1193-1199 | a surrogate or a number beyond 10FFFF is encoded as EF BF BD, which decodes to U+FFFD |
| Utf8.LenientStep | abel/filesystem/filesystem.h:1246-1282 | stated by encodings alone: a complete encoding gives its character; bytes that begin a character give one U+FFFD together with the first byte that cannot go on with it, and one at the end of the input |
| Utf8.FromUtf8To16 | abel/filesystem/filesystem.h:1246-1282 | the result is the UTF-16 form of the characters found, with U+FFFD for every rejected or unfinished sequence |
| Utf8.Encode16IsPositional | abel/filesystem/filesystem.h:1256-1262 | the code units that section 2 of RFC 2781 gives, and their recombination |
| Utf8.ToUtf8From16 | abel/filesystem/filesystem.h:1322-1347 | the result is the UTF-8 form of the characters found in the code units |
| Utf8.UnpairedSurrogate | abel/filesystem/filesystem.h:1326-1345 | behind well-formed text an unpaired surrogate, with the unit behind it, gives one U+FFFD |
| Utf8.CharactersOfValid | abel/filesystem/filesystem.h:1246-1282 | on valid input the lenient converter sees what strict decoding sees |
| Utf8.CharactersAreScalar | abel/filesystem/filesystem.h:1246-1282 | whatever the bytes, only characters come out |
| Utf8.ToUtf8IsValid | abel/filesystem/filesystem.h:1322-1347 | any 16-bit input converts to valid UTF-8 |
| Utf8.FromUtf8IsWellFormed | abel/filesystem/filesystem.h:1246-1282 | any bytes convert to UTF-16 without unpaired surrogates |
| Utf8.RoundTrip16 | abel/filesystem/filesystem.h:1246-1347 | converting to UTF-8 and back returns the string if and only if it is well-formed UTF-16 |
| Utf8.SurrogateExample | abel/filesystem/filesystem.h:1246-1347 | a lone high surrogate comes back as U+FFFD, and so does one followed by any unit but a low surrogate |
| Utf8.RoundTrip8 | abel/filesystem/filesystem.h:1246-1347 | converting valid UTF-8 to UTF-16 and back returns the bytes |
| ArrayLists.ArrayList.constructor | abel/container/array_list.h:100-100 | a new list is empty, with no chunk live or saved |
| ArrayLists.ArrayList.BackChunkNew | abel/container/array_list.h:323-343 | an empty chunk, the first saved one or else a new one, is linked behind the last |
| ArrayLists.ArrayList.EnsureRoomBack | abel/container/array_list.h:346-354 | a chunk is added exactly if there is none or the last is full |
| ArrayLists.ArrayList.UndoRoomBack | abel/container/array_list.h:356-383 | an empty last chunk is unlinked again, found from the front, and the list is as before |
| ArrayLists.ArrayList.PushBack | abel/container/array_list.h:385-426 | the element is appended; if its construction throws the contents are unchanged; the saved chunks and the counters that result; no allocation unless the last chunk is full and none is saved |
| ArrayLists.ArrayList.FrontChunkDelete | abel/container/array_list.h:447-476 | the first chunk is unlinked and saved exactly if none was saved |
| ArrayLists.ArrayList.PopFront | abel/container/array_list.h:478-487 | the first element is removed, and its chunk with it when it was the last one there; the saved chunks and the counters that result |
| ArrayLists.ArrayList.Empty | abel/container/array_list.h:241-245 | true exactly for the empty queue |
| ArrayLists.ArrayList.Size | abel/container/array_list.h:247-260 | the constant-time formula is the length of the queue if and only if the outer chunks do not together hold 2^32 elements, and never more |
| ArrayLists.SizeExample | abel/container/array_list.h:247-260 | two full chunks of 2^31 elements, for which the formula gives zero |
| ArrayLists.ArrayList.Front | abel/container/array_list.h:441-445 | the first element |
| ArrayLists.ArrayList.Back | abel/container/array_list.h:428-439 | the last element |
| ArrayLists.ArrayList.Clear | abel/container/array_list.h:262-267 | the queue is empty and at most one chunk more is saved |
| ArrayLists.ArrayList.ShrinkToFit | abel/container/array_list.h:307-315 | no chunk is saved and the contents are unchanged |
| ArrayLists.ArrayList.Reserve | abel/container/array_list.h:489-512 | for any n, as many chunks are saved as the wrapping size arithmetic asks for, and nothing else changes |
| ArrayLists.ReserveGivesRoom | abel/container/array_list.h:489-512 | reserving d more elements gives room for them if and only if rounding up to whole chunks does not wrap or the room was there already |
| ArrayLists.ReserveExample | abel/container/array_list.h:489-512 | reserving 2^64 - 1 elements in chunks of two saves nothing |
| ArrayLists.ReserveIsLeast | abel/container/array_list.h:489-512 | one chunk less would not give the room |
| ArrayLists.ReserveBelowSize | abel/container/array_list.h:489-512 | asking for fewer than size() elements saves nothing while shortfall and room in the last chunk stay below one chunk, and otherwise saves chunks for at least 2^64 elements less these two |
| ArrayLists.PushedIsPacked | abel/container/array_list.h:385-426 | a push appends to the queue, and no chunk is empty and all but the outer ones are full afterwards |
| ArrayLists.PoppedIsPacked | abel/container/array_list.h:478-487 | a pop removes the head of the queue and keeps the same invariant |
| ArrayLists.PackedLength | abel/container/array_list.h:38-45 | the invariant makes the length a function of the chunk count and the outer chunks |
| ArrayLists.PushesWithoutAllocation | abel/container/array_list.h:111-116 | a run of successful pushes goes without an allocation if and only if it is no longer than the room in the last and the saved chunks |
| ArrayLists.PopKeepsRoom | abel/container/array_list.h:111-116 | a pop keeps that room unless it empties the only chunk while another is saved, and then it does not |
| ArrayLists.StepKeepsRoom | abel/container/array_list.h:111-116 | after a push, a failing push or a pop the room is at least the old room less the push calls made, if and only if the step does not give a saved chunk away |
| ArrayLists.LossOfRoom | abel/container/array_list.h:356-476 | a step that gives a saved chunk away costs, beside its own call, exactly a chunk less one item |
| ArrayLists.ReservationKept | abel/container/array_list.h:111-116 | for any reservation of d elements there was room for: after a push, a failing push or a pop, the push calls left of the d go without allocation if and only if the step gave no saved chunk away or there was room for a chunk less one item beyond d |
| ArrayLists.RunWithoutAllocation | abel/container/array_list.h:111-116 | a run of pushes, failing pushes and pops in any order allocates nothing if there is room for its push calls and for a chunk less one item per saved chunk it gives away |
| ArrayLists.RoomAfterRun | abel/container/array_list.h:111-116 | a run costs at most its push calls, and a chunk less one item per saved chunk it gives away |
| ArrayLists.RunIsFifo | abel/container/array_list.h:385-487 | every run of pushes, failing pushes and pops leaves the queue that the same run leaves on a plain sequence, where a failing push changes nothing |
| ArrayLists.FailingPushExample | abel/container/array_list.h:356-408 | with room reserved for four, a failing push makes the three pushes left allocate |
| ArrayLists.SlackExample | abel/container/array_list.h:489-512 | after reserving five elements in chunks of four, a failing push leaves the four pushes left without allocation |
| ArrayLists.PopExample | abel/container/array_list.h:447-487 | popping the only element with one chunk saved takes room for seven down to four |
| ArrayLists.Perform | abel/container/array_list.h:356-487 | on the heap, a push, a failing push and a pop take the list, its saved chunks and its counters where the model of runs takes them, and allocate only where it says |
| ArrayLists.VisitsInOrder | abel/container/array_list.h:194-205 | increments from the front visit the queue's elements in order, up to the first chunk whose counters have wrapped |
| ArrayLists.EndAfterLast | abel/container/array_list.h:194-205 | without wrapped counters the end is reached just after the last element and not before |
| ArrayLists.IterationEnds | abel/container/array_list.h:194-205 | iteration is at the end from a fixed number of increments on and not before; the number is at least the length, and is the length if and only if no chunk's counters have wrapped |
| ArrayLists.WrappedExample | abel/container/array_list.h:385-487 | a run from the empty queue that leaves one element whose counters have wrapped, so that iteration is longer than the queue |
| ArrayLists.AlternatingAdvances | abel/container/array_list.h:385-487 | each push and pop on a queue of one element advances both counters of its chunk |
| ArrayLists.FewPushesDoNotWrap | abel/container/array_list.h:385-487 | after any run from an empty queue with fewer than 2^32 successful pushes no live chunk's counters have wrapped |
| ArrayLists.CountsOfList | abel/container/array_list.h:20-26 | the counters of a list's chunks count its contents |
| ArrayLists.Collect | abel/container/array_list.h:513-524 | a loop from begin() to end() over a list yields exactly its queue, when no chunk's counters have wrapped |
| ArrayLists.Iterator.Increment | abel/container/array_list.h:194-205 | the iterator moves to the next item of its chunk, or to the start of the next chunk when its index meets the chunk's end counter |
| ArrayLists.Iterator.Value | abel/container/array_list.h:179-183 | the element at the iterator's place |
| Slots.WrapKeepsSlot | abel/container/circular_buffer.h:169-173 | an index and its wrapped value have the same slot when the capacity is a power of two |
| CircularBuffers.CircularBuffer.At | abel/container/circular_buffer.h:401-412 | element idx of the contents, however the indices have wrapped |
| CircularBuffers.CircularBuffer.Expand | abel/container/circular_buffer.h:257-284 | the contents are unchanged in a new storage that starts at slot zero; if the allocation or the copy of any element fails the buffer is exactly as it was |
| CircularBuffers.CircularBuffer.MaybeExpand | abel/container/circular_buffer.h:286-292 | a buffer that is not full is untouched; a full one has twice the capacity, or one, and the same contents, or could not be doubled and nothing changed |
| CircularBuffers.CircularBuffer.PushBack | abel/container/circular_buffer.h:326-354 | the element is appended, or the contents are unchanged when growth fails or the element's constructor throws; the capacity doubles exactly when the buffer was full |
| CircularBuffers.CircularBuffer.PushFront | abel/container/circular_buffer.h:295-323 | the element is prepended, also when begin passes below zero, or the contents are unchanged when growth fails or the constructor throws; the capacity doubles exactly when the buffer was full |
| CircularBuffers.CircularBuffer.PopFront | abel/container/circular_buffer.h:385-391 | the first element is removed |
| CircularBuffers.CircularBuffer.PopBack | abel/container/circular_buffer.h:393-399 | the last element is removed |
| CircularBuffers.CircularBuffer.Front | abel/container/circular_buffer.h:357-369 | the first element |
| CircularBuffers.CircularBuffer.Back | abel/container/circular_buffer.h:371-383 | the last element |
| CircularBuffers.CircularBuffer.Erase | abel/container/circular_buffer.h:421-449 | exactly the elements outside [first, last) remain, in order, and the result is the position of the element that followed; the shorter side is moved, so the elements of the other side keep their indices |
| CircularBuffers.CircularBuffer.EraseMovingFront | abel/container/circular_buffer.h:431-438 | moving the elements before the range up removes the range |
| CircularBuffers.CircularBuffer.EraseMovingBack | abel/container/circular_buffer.h:439-448 | moving the elements after the range down removes the range |
| Base64.Base64Encode | abel/digest/base64.cc:18-93 | the encoding, block by block, with lines broken after whole blocks; the next six rows say what it is |
| Base64.EncodingTable | abel/digest/base64.cc:30-36 | the letters are those of the alphabet, in its order |
| Base64.EncodedBits | abel/digest/base64.cc:41-92 | the values of the letters written are the bits of the input, six at a time, with zeros behind its end, in as few letters as hold them |
| Base64.EncodedShape | abel/digest/base64.cc:54-74 | the unbroken encoding is letters, followed by two equals signs if the length leaves one byte over, by one if it leaves two, and else by none |
| Base64.EncodedCharacters | abel/digest/base64.cc:18-93 | with line breaks too, nothing but letters, equals signs and newlines is written |
| Base64.LineBreaksOnlyInsert | abel/digest/base64.cc:85-91 | deleting the newlines gives the unbroken encoding |
| Base64.EncodedLength | abel/digest/base64.cc:85-91 | four characters for every three bytes or part of them, and one newline for every line that whole blocks fill |
| Base64.Base64Decode | abel/digest/base64.cc:101-194 | the decoding, letter by letter, skipping blanks and padding, failing in strict mode on anything else; the next rows say what it is |
| Base64.DecodingTable | abel/digest/base64.cc:113-130 | a character has the value of its place in the alphabet; tab, newline, carriage return, blank and the equals sign are skipped; all others are invalid |
| Base64.DecodedBits | abel/digest/base64.cc:137-193 | whatever decodes, the bytes are the bits of the letters' values, as many as there are whole bytes in them |
| Base64.SkippedAnywhere | abel/digest/base64.cc:140-147 | inserting any of the five skipped characters anywhere changes nothing, in either mode |
| Base64.LenientIgnoresInvalid | abel/digest/base64.cc:145-147 | lenient decoding is strict decoding of the input without its invalid characters |
| Base64.DecodeInvertsEncode | abel/digest/base64.cc:18-194 | decoding the encoding of any bytes returns them, for every line length, in both modes |
| Base64.StrictFailsExactlyOnInvalid | abel/digest/base64.cc:134-147 | decoding fails if and only if it is strict and some character is none of A-Z, a-z, 0-9, +, /, tab, newline, carriage return, blank and the equals sign |
| Base64.LinesHaveFullLength | abel/digest/base64.cc:85-91 | every newline-terminated line has the line length, rounded up to a multiple of four, in letters, and no line has more |

## Left out

- Floating-point durations (ScaleDouble, float_div_duration, make_pos_double_duration) and the
  parsing and formatting of durations.
- The clock's inputs: kernel time, cycle counter and the syscall-time heuristic are arbitrary values;
  a thread waiting for the spin lock simply does not move.
- Weak memory: the interleavings are sequentially consistent, and the sequence word of the concurrent
  model is an unbounded number. The statistics counters are not modelled.
- ClockSample.SegmentsMeet: for more than 30 shifts the C++ shift count is negative; the model takes
  that result as an arbitrary input, so nothing is claimed there.
- Bit operations are written as arithmetic: shifts as multiplication and division by powers of two,
  masks as remainders, unions of disjoint bits as sums.
- The intrusive list's push_front, push_back, contains, locate, remove, reverse-iterator erase and
  comparison operators, and the overloads of merge, unique and sort that use the elements' own
  operators: they repeat the code of members that are modelled. splice(pos, value) has the code of
  splice(pos, x, i).
- The intrusive list's debug assertions; those in front() and back() are the wrong way round.
- The comparison of Merge, Sort and Unique is a function on nodes, so a comparison that reads a mutable
  field of the nodes' owner, or that throws, is not covered.
- The 8-bit and 32-bit overloads of the UTF converters, and the variants that raise an exception.
- File system operations and path handling.
- Construction and destruction of elements as such: copying against moving and destructor counts. A
  constructor that throws is the `throws` argument of the pushes, and an element whose copy throws while
  a ring deque grows is the `failAt` argument. Allocation failure in array_list is not modelled.
- ArrayLists.ArrayList.constructor: chunks hold at most 2^31 items; 32-bit counters cannot tell a larger
  chunk that is full. The length and the number of chunks are mathematical integers.
- Capacities of a ring deque end at 2^62 elements; asking for more fails without changing the buffer.
  Its reserve() only calls Expand with the next power of two.
- Moving a container into another, allocators, and base64's size estimates for reserving memory.
- fixed_circular_buffer, the btree, hash-table and inlined-vector containers, time zones, digests,
  flags, logging and debugging support.
