# Verified models of the logging pipeline and its formatting code

tracejj hands log messages from any number of threads through a lock-free ring
buffer to one writing thread, which drains it into rotating files and trims the
oldest ones. The messages are formatted by the vendored fmt library, and paths go
through ghc::filesystem. This project models the parts of that code whose
correctness is not visible from reading one function, and proves what they are for.

`dafny verify dfyconfig.toml` checks everything. Loops of the source are loops here,
proved against functions whose properties are lemmas; objects that the source
updates in place are classes; the concurrent ring is a transition system with one
step per atomic access.

## Components

- **Ring buffer.** `RingSystem`, `RingInvariant` and `RingTheorems` hold the
  concurrent protocol with its history of accepted and released bytes;
  `RingProducers` says how many producers, and which messages, it is safe for, and
  `RingProgress` what calls and the consumer reach by their own steps.
  `RingBuffer` is the same buffer as a class over its array, refining a bounded byte
  queue. `Machine` has the ranges of the integer types.
- **Log file writer.** `LogWriterSpec` gives one step per call, per half of `Stop`,
  per file opening and per iteration of the loop; `LogFileWriter` is the class, whose
  methods take exactly those steps over the real ring; `LogWriterSteps` says in
  numbers, flags and bytes what each step does, `LogWriterTheorems` what whole runs
  keep. `PruneStorage` is the storage cap.
- **Multi-limb numbers.** `Multiplication`, `Limbs`, `BigintValue`, `BigintPower` and
  `BigintDivide` give the limbs a value; `BigintClass` is the class with its loops.
- **Digit generation.** `Rounding` defines rounding half to even independently of any
  algorithm; `DragonDigits`, `Dragon` and `DragonFixup` are the bignum generator,
  `FixedDigits` the fast one.
- **Text.** `Utf8Automaton` and `Utf8` are the UTF-8 automaton and codec,
  `FormatParser` the format-string parser and `FormatStrings` what it makes of format
  strings, `IsoWeek` the week arithmetic and `TrailingZeros` the removal of trailing
  decimal zeros.

## Where the code falls short of its promise

Each of these is proved with the exact condition under which the code is right.

- The free-space test counts published bytes only, and the counter adds the message
  length modulo 2^32. In a ring of any capacity every run stays within the capacity,
  and every run is first in first out, exactly when there is at most one producer at
  a time and its messages, or the ring, are shorter than 2^32 bytes
  (`RingProducers.WithinCapacityIff`).
- `Stop` tests the ring and sets the end-of-file flag in two steps. If the loop
  empties the ring in between it never exits, since the flag is only looked at after
  a drain (`LogWriterTheorems.StopExitsIffRingHeld`, `StopCanHang`).
- The storage cap counts a log file whose size it cannot read as 2^64 - 1 bytes, and
  subtracts sizes that it reads a second time. It does what it promises exactly when
  no size read failed and the second sizes of the files due add up to no more than
  was counted (`PruneStorage.PrunedRightIff`); otherwise the unsigned total wraps
  (`PruneStorage.GrownFileUnderflows`, `PruneStorage.UnreadableFileWraps`).
- `compare` orders equal values with different exponents
  (`BigintDivide.CompareExactIff`); through it `divmod_assign` can answer 0 for 1.
  In the digit generator this writes the character after '9', though never for a
  significand of a floating-point format: only a direct call of `format_dragon` can
  bring it about (`Dragon.NeverColon`, `Dragon.ColonIsWritten`).
- The borrow loop of `subtract_aligned` does not move to the next limb. The
  subtraction is exact if and only if no borrow meets a zero limb
  (`BigintDivide.SubExactIff`), and `divmod_assign` ends if and only if the dividend
  has at most one limb more (`BigintDivide.DivEndsIff`); its quotient overflows
  exactly when the floor quotient exceeds an int
  (`BigintDivide.QuotientOverflowsIff`).
- `assign_pow10` shifts its mask out of an int from exponent 2^30 on
  (`BigintPower.MaskFitsIff`).
- `toUtf8` replaces a lone surrogate together with the unit after it
  (`Utf8.LoneSurrogateSwallows`), so only well-formed UTF-16 survives a round trip.
- The 64-bit removal of trailing zeros cuts a quotient to 32 bits: it is right exactly
  below 10^8 * 2^32 and for numbers that 10^8 does not divide
  (`TrailingZeros.RemoveTrailingZeros64`), and does not end for the multiples of
  10^8 * 2^32 (`TrailingZeros.ZeroIsHandedOffIff`).
- The ISO week functions truncate remainders toward zero, so they miss week 53 of
  every year before 0 (`IsoWeek.CorrectIff`).

## Model

| member | source | states |
|---|---|---|
| `RingIndex.WrapIsRemainder` | src/buffer/MultiWriteRingBuffer.cpp:39-42 | folding an index leaves its remainder by the capacity |
| `RingIndex.WrapApart` | src/buffer/MultiWriteRingBuffer.cpp:52-63 | stream positions less than one capacity apart own different slots |
| `RingIndex.SliceIndexWraps` | src/buffer/MultiWriteRingBuffer.cpp:52-63 | the one- or two-slice address of a block's byte is the slot of its stream position |
| `RingInvariant.StepKeepsInv` | src/buffer/MultiWriteRingBuffer.cpp:24-113 | every atomic step of any thread keeps the safety invariant while reserved minus released bytes fit the capacity; what the steps achieve is in the rows of RingProgress and RingTheorems |
| `RingInvariant.TurnIsFirst` | src/buffer/MultiWriteRingBuffer.cpp:64-72 | a reservation in flight matches the end index exactly when it is the oldest |
| `RingTheorems.Fifo` | src/buffer/MultiWriteRingBuffer.cpp:24-113 | for any number of producers and every interleaving within the capacity premise, the released bytes are a prefix of the accepted messages laid end to end in compare-exchange order, and the counter never exceeds ended minus released |
| `RingTheorems.PeekedBytesAreSafe` | src/buffer/MultiWriteRingBuffer.cpp:76-94 | every byte of a peeked block is the right byte of the accepted stream, lies below the ended position, and has no store outstanding in its slot |
| `RingTheorems.ReadedSucceeds` | src/buffer/MultiWriteRingBuffer.cpp:96-103 | releasing any read prefix of a peeked block is never refused |
| `RingTheorems.TicketsAreDistinct` | src/buffer/MultiWriteRingBuffer.cpp:34-51 | start indices in flight are pairwise distinct and only the oldest equals the end index |
| `RingTheorems.CommitsInOrder` | src/buffer/MultiWriteRingBuffer.cpp:64-72 | only the oldest reservation can store the end index, and it advances the ended position by its length |
| `RingTheorems.OldestCommits` | src/buffer/MultiWriteRingBuffer.cpp:52-72 | from any state of the invariant the oldest reservation commits by its own remaining steps |
| `RingTheorems.NoDeadlock` | src/buffer/MultiWriteRingBuffer.cpp:64-72 | in every reachable state with reservations in flight the spin loop lets the oldest commit |
| `RingProgress.CallIsAccepted` | src/buffer/MultiWriteRingBuffer.cpp:34-51 | from any state a call that has passed the first test, has loaded the index or has failed a compare-exchange, and whose message fits the free bytes, gets its reservation by its own steps alone; exactly its message is appended to the accepted ones and to the stream |
| `RingProgress.CallIsDropped` | src/buffer/MultiWriteRingBuffer.cpp:47-50 | a step ends a call without accepting its message only at the repeated test, and only when the message exceeds the free bytes at that moment |
| `RingProgress.CallsKeepMessages` | src/buffer/MultiWriteRingBuffer.cpp:34-51 | no step changes the message of a call, and none is accepted unless a call ends |
| `RingProgress.BlockIsReleased` | src/buffer/MultiWriteRingBuffer.cpp:76-113 | from any state with the consumer at rest, whatever the writers are doing, peeking, reading and releasing the first w bytes takes exactly those bytes, in order and wrapped, out of the count and changes nothing else |
| `RingProducers.OneProducerStaysWithinCapacity` | src/buffer/MultiWriteRingBuffer.cpp:24-33 | with one producer, and messages or a ring shorter than 2^32 bytes, the capacity premise follows from the free-space test, and so does the FIFO order |
| `RingProducers.TwoProducersCanOverReserve` | src/buffer/MultiWriteRingBuffer.cpp:26-51 | in a ring of any capacity two producers of one-byte messages can leave the capacity and lose the FIFO order |
| `RingProducers.LongMessagesOverReserve` | src/buffer/MultiWriteRingBuffer.cpp:64-72 | in a ring with room for a message of 2^32 bytes one producer can do the same, since the counter does not see such a message |
| `RingProducers.QuietWrite` | src/buffer/MultiWriteRingBuffer.cpp:24-74 | a write with no other call about appends its message, stores it slot by slot and counts its length modulo 2^32 |
| `RingProducers.WithinCapacityIff` | src/buffer/MultiWriteRingBuffer.cpp:24-113 | all runs of at most p producers stay within the capacity, and all are first in first out, exactly when p is 0, or 1 with messages or a ring shorter than 2^32 bytes |
| `RingBuffer.MultiWriteRingBuffer.constructor` | src/buffer/MultiWriteRingBuffer.cpp:7-15 | a new ring is valid, empty and of the given capacity |
| `RingBuffer.MultiWriteRingBuffer.Write` | src/buffer/MultiWriteRingBuffer.cpp:24-74 | fails exactly when the free space is too small; otherwise appends the message cut to its length modulo 2^32, which is the whole message exactly below 2^32 bytes; exact-fit wrap included |
| `RingBuffer.MultiWriteRingBuffer.CopyIn` | src/buffer/MultiWriteRingBuffer.cpp:52-63 | the message's bytes land in consecutive slots, going round, and no other slot changes |
| `RingBuffer.MultiWriteRingBuffer.Peek` | src/buffer/MultiWriteRingBuffer.cpp:76-94 | the two slices laid end to end are the whole queue |
| `RingBuffer.MultiWriteRingBuffer.Readed` | src/buffer/MultiWriteRingBuffer.cpp:96-113 | drops exactly as many bytes from the front as the block's sizes add up to, or nothing when it holds fewer |
| `RingBuffer.Replay` | src/buffer/MultiWriteRingBuffer.cpp:24-113 | any sequence of calls with messages below 2^32 bytes gives the results and the contents of the bounded byte queue |
| `RingBuffer.QueueConserves` | src/buffer/MultiWriteRingBuffer.cpp:24-113 | over any run of the queue what left followed by what is held is what was held followed by what entered, within the capacity |
| `RingBuffer.QueueAnswers` | src/buffer/MultiWriteRingBuffer.cpp:24-113 | each answer of such a run tells whether the message fitted, or that many bytes were held, after the calls before it |
| `LogFileWriter.LogFileWriter.Write` | src/log/LogFileWriter.cpp:71-95 | a call takes the specification's posting step: append or one more loss; after an accepted message the flush flag is up exactly when it was before, the level is at most 3, or more than 2048 bytes wait; the end-of-file flag never changes, and neither flag for a message not accepted |
| `LogFileWriter.LogFileWriter.StopTest` | src/log/LogFileWriter.cpp:101-105 | the test of Stop takes its specified step and ends logging when the ring is empty |
| `LogFileWriter.LogFileWriter.StopMark` | src/log/LogFileWriter.cpp:106-113 | the second step of Stop sets the end-of-file flag |
| `LogFileWriter.LogFileWriter.OpenFile` | src/log/LogFileWriter.cpp:187-192 | the head of the outer loop takes the specification's opening step |
| `LogFileWriter.LogFileWriter.WriteSlices` | src/log/LogFileWriter.cpp:206-235 | the bytes written are the front of the queue, as many as the short writes and errors allow |
| `LogFileWriter.LogFileWriter.DrainRing` | src/log/LogFileWriter.cpp:206-238 | peek, the two writes and the release move exactly those bytes from the ring into the file |
| `LogFileWriter.LogFileWriter.ReportLoss` | src/log/LogFileWriter.cpp:239-249 | a pending loss count is taken; with a full write the file gains the two fixed texts, byte by byte, around the decimal digits of that count |
| `LogFileWriter.LogFileWriter.Iteration` | src/log/LogFileWriter.cpp:193-272 | one iteration of the inner loop takes the specification's iteration step |
| `LogFileWriter.LogFileWriter.Drive` | src/log/LogFileWriter.cpp:71-286 | any interleaving of calls, stop steps, openings and iterations reaches the state that the specification's run reaches |
| `LogWriterTheorems.RunKeepsInv` | src/log/LogFileWriter.cpp:181-286 | every run keeps the stream, ledger and size invariants |
| `LogWriterTheorems.DrainIsExact` | src/log/LogFileWriter.cpp:181-286 | whatever short writes, errors and rotations occur, the payload bytes over all files are a prefix of the accepted stream and the ring holds exactly the rest |
| `LogWriterTheorems.LossLedger` | src/log/LogFileWriter.cpp:71-95 | accepted plus rejected writes are the attempted ones, and reported plus pending losses are the rejected ones modulo 2^32 |
| `LogWriterTheorems.BannerLength` | src/log/LogFileWriter.cpp:241 | the banner of any 32-bit loss count has at most 32 bytes |
| `LogWriterTheorems.RotationBound` | src/log/LogFileWriter.cpp:236-271 | a rotated file counts at least the size limit and less than the limit plus the ring capacity plus 32, and with full banner writes the count is its real length |
| `LogWriterTheorems.StopExitsIffRingHeld` | src/log/LogFileWriter.cpp:97-117 | after the end-of-file flag is set the loop exits, in three steps and with the ring empty, exactly when the ring still holds a byte at that moment |
| `LogWriterTheorems.AtomicStopCompletes` | src/log/LogFileWriter.cpp:97-117 | Stop taken as one step after the last write always ends the loop with the ring empty |
| `LogWriterTheorems.StopCanHang` | src/log/LogFileWriter.cpp:97-117 | an iteration between the two steps of Stop empties the ring and the loop then never exits |
| `LogWriterTheorems.HangingStateReached` | src/log/LogFileWriter.cpp:71-117 | a reachable state in which that happens |
| `LogWriterSteps.PostFlags` | src/log/LogFileWriter.cpp:78-88 | after an accepted post the flush flag is up exactly when it was before, the level is at most 3, or more than 2048 bytes wait; no post changes the end-of-file flag, and a rejected or dropped one neither |
| `LogWriterSteps.PostOutcome` | src/log/LogFileWriter.cpp:71-95 | a post appends the message cut to its length modulo 2^32 when that fits, adds one loss modulo 2^32 when it does not, and does nothing for an empty message or after logging has ended |
| `LogWriterSteps.BannerText` | src/log/LogFileWriter.cpp:241 | the banner is the two fixed texts, byte by byte, around digits without a leading zero that read back as the loss |
| `LogWriterSteps.FailedIteration` | src/log/LogFileWriter.cpp:206-231 | after a failed write exactly the bytes that the system took have moved from the ring to the file, the file is closed and the next opening ends the thread |
| `LogWriterSteps.GoodIteration` | src/log/LogFileWriter.cpp:206-271 | otherwise exactly the bytes taken stand in the file, followed by the banner of a pending loss; the thread ends exactly for a failed banner or the end-of-file flag, and else both flags go down; a file is closed exactly at the size limit |
| `LogWriterSteps.DiskIsExact` | src/log/LogFileWriter.cpp:181-286 | in every run that reports no loss the bytes of all files and then of the ring, laid end to end, are exactly the accepted messages |
| `LogWriterSteps.FinishedIsSilent` | src/log/LogFileWriter.cpp:273-286 | in every run, once the thread has ended a post changes nothing |
| `PruneStorage.List` | src/log/LogFileWriter.cpp:296-320 | the listing loop collects the log files whose size was read; the total is their sizes less one for each failure, modulo 2^64 |
| `PruneStorage.TotalIsExactIff` | src/log/LogFileWriter.cpp:304 | that total is the sum of the sizes exactly when no size read failed, up to a multiple of 2^64 failures |
| `PruneStorage.UnreadableCounts` | src/log/LogFileWriter.cpp:302-305 | the failures counted are the places of the listing that hold a log file whose size read failed |
| `PruneStorage.SortKeeps` | src/log/LogFileWriter.cpp:323 | sorting rearranges the listing: no item is lost, added or repeated |
| `PruneStorage.TrimIsShortest` | src/log/LogFileWriter.cpp:324-335 | with stable sizes the running total is the bytes that survive and the removed files are the shortest prefix that meets the cap |
| `PruneStorage.DueIsShortest` | src/log/LogFileWriter.cpp:321-335 | without wrapping, the files due are the shortest prefix whose second sizes bring the total to the cap |
| `PruneStorage.TrimIsExactIff` | src/log/LogFileWriter.cpp:324-335 | the loop removes exactly the files due and ends with the exact total if and only if their second sizes add up to no more than the total it started with |
| `PruneStorage.RightFilesIff` | src/log/LogFileWriter.cpp:324-335 | exactly when it still removes the right files: no wrap, no file left, or a wrapped total within the cap |
| `PruneStorage.TotalIsModular` | src/log/LogFileWriter.cpp:328 | wrapping or not, the total is right modulo 2^64 |
| `PruneStorage.Trim` | src/log/LogFileWriter.cpp:324-335 | the removing loop removes that many files and leaves that total |
| `PruneStorage.Prune` | src/log/LogFileWriter.cpp:288-336 | listing, sorting and removing together: removed and kept files are exactly the log files whose size was read, each as often as listed; no removed file is younger than a kept one, by modification time and on equal times by path, a file dated after now counting as old as it is ahead; when the size reads of log files succeed and agree, the total is the size of what is kept, the cap is met or nothing is kept, and no shorter prefix would do |
| `PruneStorage.PrunedRightIff` | src/log/LogFileWriter.cpp:296-335 | the promise is kept exactly when no size read of the listing failed, up to a multiple of 2^64, and the second sizes of the files due add up to no more than was counted |
| `PruneStorage.KeptSortAfterRemoved` | src/log/LogFileWriter.cpp:307-335 | of a removed and a kept file, neither dated after now, the removed one has the earlier time, or the same and not the later path; the same for two files dated after now; for one of each the distance from now is compared with the other's time |
| `PruneStorage.NoFileIsLost` | src/log/LogFileWriter.cpp:300-323 | removed and kept files together are the log files whose size was read, each as often as it is listed |
| `PruneStorage.GrownFileUnderflows` | src/log/LogFileWriter.cpp:328 | a file that grew between its two size reads makes the total wrap, and a file more than due is removed |
| `PruneStorage.UnreadableFileWraps` | src/log/LogFileWriter.cpp:304 | unreadable files beyond the bytes counted make the first total wrap, and files go although all fit the cap |
| `Limbs.MulCarryNum` | third/fmt/include/fmt/format.h:2772-2802 | the limbs of a multiplication by a small number denote the product plus the carry |
| `Limbs.SquareIsExact` | third/fmt/include/fmt/format.h:2926-2953 | the column sums of the squaring loops denote the square |
| `Limbs.SubDigitsNum` | third/fmt/include/fmt/format.h:2748-2768 | limb-wise subtraction denotes the difference, up to the borrow left over |
| `Limbs.TrimNum` | third/fmt/include/fmt/format.h:2754-2758 | dropping leading zero limbs keeps the value |
| `BigintClass.Bigint.Assign` | third/fmt/include/fmt/format.h:2806-2815 | the limbs of a positive 64- or 128-bit number, exponent zero |
| `BigintClass.Bigint.Multiply32` | third/fmt/include/fmt/format.h:2772-2781 | the limbs of the product; the 64-bit intermediate never overflows |
| `BigintClass.Bigint.MultiplyWide` | third/fmt/include/fmt/format.h:2785-2802 | multiplication by halves gives the same limbs; no 64- or 128-bit intermediate overflows |
| `BigintClass.WideStep` | third/fmt/include/fmt/format.h:2792-2797 | one step by halves is one step of schoolbook multiplication |
| `BigintPower.TimesValue` | third/fmt/include/fmt/format.h:2855-2860 | multiplying multiplies the value and keeps a non-zero top limb |
| `BigintClass.Bigint.ShiftLeft` | third/fmt/include/fmt/format.h:2840-2853 | a shift moves whole limbs into the exponent and the rest through the limbs |
| `BigintPower.ShiftedValue` | third/fmt/include/fmt/format.h:2840-2853 | a shift multiplies the value by the power of two and keeps a non-zero top limb |
| `BigintClass.Bigint.Square` | third/fmt/include/fmt/format.h:2926-2954 | squaring gives the trimmed column limbs and doubles the exponent; the 128-bit sum never overflows |
| `Limbs.SquaredNum` | third/fmt/include/fmt/format.h:2926-2954 | those limbs denote the square, with a non-zero top limb |
| `BigintPower.MaskFitsIff` | third/fmt/include/fmt/format.h:2911-2913 | the search for the top bit stays within an int exactly for exponents below 2^30 |
| `BigintClass.Bigint.FindTopBit` | third/fmt/include/fmt/format.h:2911-2913 | the mask found is the exponent's top bit |
| `BigintClass.Bigint.AssignPow10` | third/fmt/include/fmt/format.h:2907-2924 | leaves exactly 10^e, normalised, for every exponent below 2^30 |
| `BigintPower.NextBit` | third/fmt/include/fmt/format.h:2917-2922 | consuming one more bit doubles the exponent reached and adds the bit |
| `BigintClass.Bigint.Compare` | third/fmt/include/fmt/format.h:2862-2877 | for any operands the order of the sizes, then of the values, then the reverse order of the exponents; without needless top zeros the sizes do not matter |
| `BigintDivide.CompareExactIff` | third/fmt/include/fmt/format.h:2862-2877 | that is the order of the values exactly when they differ or the exponents agree |
| `BigintDivide.EqualValuesDiffer` | third/fmt/include/fmt/format.h:2875 | two equal values that compare as different |
| `BigintClass.Bigint.AddCompare` | third/fmt/include/fmt/format.h:2879-2904 | the sign of lhs1 + lhs2 - rhs, in spite of every early exit |
| `BigintValue.SumTooShort` | third/fmt/include/fmt/format.h:2887 | the first early exit is sound |
| `BigintDivide.SumTooLong` | third/fmt/include/fmt/format.h:2888 | so is the second |
| `BigintValue.ShortfallDecides` | third/fmt/include/fmt/format.h:2894-2902 | a shortfall of two or more, or an excess, at any limb decides the order whatever follows |
| `BigintClass.Bigint.Align` | third/fmt/include/fmt/format.h:2956-2966 | limbs move up so that the exponent is at most the other's |
| `BigintDivide.AlignedKeeps` | third/fmt/include/fmt/format.h:2956-2966 | aligning keeps the value, the size and the top limb |
| `BigintClass.Bigint.SubtractAligned` | third/fmt/include/fmt/format.h:2761-2770 | leaves the limbs of the aligned subtraction, including what the borrow loop does when it stays at its limb |
| `BigintClass.Bigint.SpendBorrowAt` | third/fmt/include/fmt/format.h:2768 | the borrow loop, which never moves on, ends and leaves the limb less one, or two below 2^32 for zero |
| `BigintDivide.SubExactIff` | third/fmt/include/fmt/format.h:2761-2770 | the subtraction of a number that is not greater is exact if and only if it does not borrow from a zero limb |
| `BigintDivide.BorrowFromZeroIsWrong` | third/fmt/include/fmt/format.h:2768 | 2^64 less 1, for which it is wrong |
| `BigintClass.Bigint.DivmodAssign` | third/fmt/include/fmt/format.h:2969-2980 | for a quotient that is an int: quotient and remainder satisfy the division identity, and the remainder is below the divisor unless equal values had a higher exponent |
| `BigintDivide.DivStepExact` | third/fmt/include/fmt/format.h:2974-2978 | one pass takes the divisor off once when the dividend has at most one limb more |
| `BigintDivide.DivStepExactIff` | third/fmt/include/fmt/format.h:2974-2978 | one pass takes the divisor off once if and only if it does not borrow from a zero limb |
| `BigintDivide.DivNeverEnds` | third/fmt/include/fmt/format.h:2975-2978 | with two limbs more the loop never ends |
| `BigintDivide.DivEndsIff` | third/fmt/include/fmt/format.h:2975-2978 | the loop ends if and only if the dividend has at most one limb more |
| `BigintDivide.QuotientOverflowsIff` | third/fmt/include/fmt/format.h:2974-2979 | the loop is still running after INT_MAX passes exactly when the floor quotient exceeds INT_MAX |
| `Rounding.RoundedUnique` | third/fmt/include/fmt/format.h:3103-3104 | rounding half to even determines the integer |
| `Rounding.RatioRounded` | third/fmt/include/fmt/format.h:3103-3104 | equal ratios round alike |
| `Rounding.PropagateCarry` | third/fmt/include/fmt/format.h:3108-3112 | moving the carry up keeps the number and ends with decimal digits or a ten followed by zeros |
| `Dragon.SetUpWhole` | third/fmt/include/fmt/format.h:3007-3018 | the branch for e >= 0: numerator over denominator is f * 2^e / 10^exp10 |
| `Dragon.SetUpTiny` | third/fmt/include/fmt/format.h:3019-3030 | the branch for exp10 < 0: the same |
| `Dragon.SetUpMiddle` | third/fmt/include/fmt/format.h:3031-3041 | the remaining branch: the same |
| `Dragon.SetUp` | third/fmt/include/fmt/format.h:3001-3041 | in every branch the ratio is the value's and the upper half-gap is half an ulp on its scale |
| `Dragon.LowersDecides` | third/fmt/include/fmt/format.h:3042-3047 | the fix-up's comparison asks whether the value plus half an ulp stays below 10^exp10, or reaches it for odd f |
| `Dragon.AfterFixup` | third/fmt/include/fmt/format.h:3045-3056 | the fix-up keeps numerator / denominator * 10^exp10 equal to the value |
| `Dragon.Rescale` | third/fmt/include/fmt/format.h:3056 | the value seen at two powers of ten is one ratio |
| `DragonDigits.DigitStep` | third/fmt/include/fmt/format.h:3097-3101 | one division followed by a multiplication by ten keeps the digit phases |
| `DragonDigits.EmittedStep` | third/fmt/include/fmt/format.h:3097-3101 | and keeps the digits so far plus the remainder equal to the ratio |
| `DragonDigits.LastDigit` | third/fmt/include/fmt/format.h:3102-3103 | the last quotient and remainder, and whether all digits are decimal |
| `DragonDigits.RoundText` | third/fmt/include/fmt/format.h:3103-3124 | rounding up and the final carry give the number plus one, with the length or the exponent adjusted |
| `DragonDigits.Generate` | third/fmt/include/fmt/format.h:3085-3124 | the text and exponent denote numerator / denominator rounded half to even at the last digit, for any number of digits including none |
| `Dragon.FormatDragon` | third/fmt/include/fmt/format.h:2993-3125 | the text and exponent denote f * 2^e rounded half to even at the last digit; the error is raised exactly when the digit count of the fixed format exceeds INT_MAX; all characters are digits exactly unless a colon is written |
| `Dragon.NeverColon` | third/fmt/include/fmt/format.h:3098-3099 | for every significand of up to 64 or of exactly 113 bits no digit is written as the character after '9' |
| `Dragon.ColonIsWritten` | third/fmt/include/fmt/format.h:3098-3099 | a number for which one is, whose significand no format has |
| `DragonFixup.FixupSettles` | third/fmt/include/fmt/format.h:3042-3056 | an estimate that is right or one too high is made right: the value and half an ulp reach ten to the exponent left, strictly for odd f, and the value stays below the next power |
| `DragonFixup.FirstDigitIsNotZero` | third/fmt/include/fmt/format.h:3085-3124 | the first digit printed of a value that reaches ten to that exponent is not zero |
| `FixedDigits.MagicDivide` | third/fmt/include/fmt/format.h:3359-3360 | multiplication by a slightly enlarged reciprocal divides exactly while the excess stays small |
| `FixedDigits.SplitIsExact` | third/fmt/include/fmt/format.h:3359-3459 | the magic numbers cut every 19-digit segment exactly into 9, 9 and 1 digits |
| `FixedDigits.OddStart` | third/fmt/include/fmt/format.h:3374-3384 | the first digit in fixed point, with an excess below one unit |
| `FixedDigits.EvenStart` | third/fmt/include/fmt/format.h:3387-3397 | the first two digits in fixed point, with an excess below one unit |
| `FixedDigits.PairStep` | third/fmt/include/fmt/format.h:3401-3406 | each further pair of digits keeps that excess |
| `FixedDigits.IntegerPart` | third/fmt/include/fmt/format.h:3371-3407 | the digits printed so far are exactly the leading digits |
| `FixedDigits.PrintSubsegment` | third/fmt/include/fmt/format.h:3371-3407 | prints exactly the leading digits of a nine-digit subsegment and keeps the fraction in fixed point |
| `FixedDigits.ThresholdIsCeiling` | third/fmt/include/fmt/format.h:3215-3224 | each table entry is 2^31 + 2^32 / 10^(k+1) rounded up |
| `FixedDigits.FractionDecides` | third/fmt/include/fmt/format.h:3415-3435 | the top bit and the threshold decide at least half and more than half |
| `FixedDigits.CutFirst` | third/fmt/include/fmt/format.h:3409-3446 | precision up to 9: the leading digits and the round-half-even decision, at the subsegment boundary too |
| `FixedDigits.CutSecond` | third/fmt/include/fmt/format.h:3449-3486 | precision 10 to 18: the same |
| `FixedDigits.RoundUp` | third/fmt/include/fmt/format.h:3489-3502 | adding one with its carry, adjusting the length or the exponent |
| `FixedDigits.FormatSegment` | third/fmt/include/fmt/format.h:3329-3504 | the text and exponent for a segment with a sticky bit, for every precision below its digits |
| `FixedDigits.SegmentTextIsRounded` | third/fmt/include/fmt/format.h:3329-3504 | whatever the number whose first segment and sticky bit these are, the result is that number rounded half to even |
| `FixedDigits.NothingToPrint` | third/fmt/include/fmt/format.h:3335-3337 | the empty text stands for a number that rounds to zero |
| `Utf8Automaton.CategoryIs` | third/filesystem/include/ghc/filesystem.hpp:1543-1548 | the packed table gives every byte its category |
| `Utf8Automaton.TransitionIs` | third/filesystem/include/ghc/filesystem.hpp:1541-1551 | one step of the packed automaton is the transition by byte ranges |
| `Utf8Automaton.RunAccepts` | third/filesystem/include/ghc/filesystem.hpp:1541-1551 | the automaton returns to its start exactly on the strings of the grammar in section 4 of RFC 3629 |
| `Utf8Automaton.ValidUtf8` | third/filesystem/include/ghc/filesystem.hpp:1553-1567 | accepts exactly that grammar |
| `Utf8.AppendUtf8` | third/filesystem/include/ghc/filesystem.hpp:1509-1536 | appends the encoding, of U+FFFD for what is no scalar value |
| `Utf8.CharIsEncode` | third/filesystem/include/ghc/filesystem.hpp:1509-1536 | every character of the grammar is the encoding of a scalar value |
| `Utf8.EncodingIsFed` | third/filesystem/include/ghc/filesystem.hpp:1541-1551 | feeding the encoding of a scalar value leaves the automaton at its start with that value as the code point |
| `Utf8.EncodingIsNeverEarly` | third/filesystem/include/ghc/filesystem.hpp:1541-1551 | no shorter part of an encoding is accepted or rejected |
| `Utf8.FromUtf8` | third/filesystem/include/ghc/filesystem.hpp:1582-1619 | the loop computes the specified units, replacing what it rejects |
| `Utf8.RefusedIsReplaced` | third/filesystem/include/ghc/filesystem.hpp:1601-1609 | the front of a character of the grammar, or nothing, followed by a byte that no character has there is replaced by one U+FFFD together with that byte, and decoding goes on behind it |
| `Utf8.TruncatedIsReplaced` | third/filesystem/include/ghc/filesystem.hpp:1611-1617 | a character cut off by the end of the string is replaced by one U+FFFD |
| `Utf8.ToUtf8` | third/filesystem/include/ghc/filesystem.hpp:1671-1697 | the loop computes the specified bytes, pairs combined and other surrogates replaced |
| `Utf8.PairUnits` | third/filesystem/include/ghc/filesystem.hpp:1678-1679 | the 32-bit pair formula gives the scalar value whose units the pair is |
| `Utf8.RoundTrip16` | third/filesystem/include/ghc/filesystem.hpp:1582-1697 | UTF-16 to UTF-8 and back is the identity exactly on well-formed strings, of any length |
| `Utf8.RoundTrip8` | third/filesystem/include/ghc/filesystem.hpp:1582-1697 | UTF-8 to UTF-16 and back is the identity exactly on valid strings, of any length |
| `Utf8.LoneSurrogateIsReplaced` | third/filesystem/include/ghc/filesystem.hpp:1676-1689 | a surrogate that starts no pair is replaced by the bytes EF BF BD together with the unit after it |
| `Utf8.LoneSurrogateSwallows` | third/filesystem/include/ghc/filesystem.hpp:1676-1689 | two units of a string that go into one replacement |
| `FormatParser.ParseNonnegativeInt` | third/fmt/include/fmt/base.h:2245-2266 | in wrapping 32-bit arithmetic, the number or the error value |
| `FormatParser.IntegerIsExact` | third/fmt/include/fmt/base.h:2258-2265 | without a leading zero the number is read exactly when it is an int |
| `FormatParser.ParseArgId` | third/fmt/include/fmt/base.h:2284-2319 | finds the identifier and its end and tells the handler, or fails |
| `FormatParser.ParseReplacementField` | third/fmt/include/fmt/base.h:2565-2599 | reads one field, escaped brace or error as the reference parser does |
| `FormatParser.Find` | third/fmt/include/fmt/base.h:2227-2239 | the first occurrence in the range, or none |
| `FormatParser.ParseSimple` | third/fmt/include/fmt/base.h:2606-2623 | the one-pass loop agrees with the reference parser on every string and handler |
| `FormatParser.WriteText` | third/fmt/include/fmt/base.h:2624-2639 | the second pass over text agrees with the reference parser |
| `FormatParser.ParseTwoPass` | third/fmt/include/fmt/base.h:2640-2648 | so does the two-pass form: same fields, same text, same error |
| `FormatParser.ParseFormatString` | third/fmt/include/fmt/base.h:2601-2649 | whichever form is taken the outcome is the reference parser's |
| `FormatStrings.ArgIsRead` | third/fmt/include/fmt/base.h:2284-2319 | every argument identifier, written out before a brace or colon, is read back, to its end |
| `FormatStrings.SpecifiersAreTaken` | third/fmt/include/fmt/base.h:2590-2594 | a handler that takes n characters after the colon of a field, up to a closing brace, is given one field with its argument, its id and just these characters, and parsing goes on after the brace; stopping anywhere else is the error "unknown format specifier" |
| `FormatStrings.ShownIsParsed` | third/fmt/include/fmt/base.h:2565-2649 | any sequence of texts, fields and fields with specifiers, written as a format string and parsed, reaches the handler part by part and in order, whatever the handler, as long as it keeps to the specifiers of each part |
| `FormatStrings.EscapingIsUndone` | third/fmt/include/fmt/base.h:2601-2649 | doubling every brace of any text and parsing gives the text back, whatever the handler |
| `FormatStrings.OpenIndexFails` | third/fmt/include/fmt/base.h:2287-2298 | an index not followed by a brace or a colon, or anything after a zero, is an invalid format string |
| `FormatStrings.OpenNameFails` | third/fmt/include/fmt/base.h:2595-2597 | a name not followed by a brace or a colon is told to the handler and then lacks its brace |
| `FormatStrings.LongIndexIsRead` | third/fmt/include/fmt/base.h:2287-2298 | an index that is no int is read as INT_MAX |
| `TrailingZeros.Hundredth32Exact` | third/fmt/include/fmt/format-inl.h:1149-1150 | the rotated product is small exactly for multiples of 100, and is then the quotient |
| `TrailingZeros.Tenth32Exact` | third/fmt/include/fmt/format-inl.h:1154-1155 | the same for 10 |
| `TrailingZeros.Hundredth64Exact` | third/fmt/include/fmt/format-inl.h:1186-1187 | the same for 100 in 64 bits |
| `TrailingZeros.Tenth64Exact` | third/fmt/include/fmt/format-inl.h:1191-1192 | the same for 10 in 64 bits |
| `TrailingZeros.RemoveTrailingZeros32` | third/fmt/include/fmt/format-inl.h:1142-1160 | strips all trailing zeros of a non-zero number and counts them |
| `TrailingZeros.StrippedOnce` | third/fmt/include/fmt/format-inl.h:1141-1142 | a number determines its stripped form and the count |
| `TrailingZeros.MagicIsExact` | third/fmt/include/fmt/format-inl.h:1166-1173 | the test for a multiple of 10^8 is exact, and so is the quotient before it is cut |
| `TrailingZeros.HandOffExactIff` | third/fmt/include/fmt/format-inl.h:1172-1176 | the cut to 32 bits is harmless exactly below 10^8 * 2^32 |
| `TrailingZeros.RemoveTrailingZeros64` | third/fmt/include/fmt/format-inl.h:1163-1198 | strips all trailing zeros exactly when the number is below 10^8 * 2^32 or no multiple of 10^8 |
| `TrailingZeros.ZeroIsHandedOffIff` | third/fmt/include/fmt/format-inl.h:1172-1176 | the hand-off passes zero exactly for the multiples of 10^8 * 2^32, and the 32-bit loop never leaves zero |
| `IsoWeek.WeeksAre` | third/fmt/include/fmt/chrono.h:1261-1270 | the number of weeks is right from year 0 on; before, every long year is missed |
| `IsoWeek.WeekNumIs` | third/fmt/include/fmt/chrono.h:1271-1274 | the week number counts Thursdays from the first of January |
| `IsoWeek.IsoWeekIsUnique` | third/fmt/include/fmt/chrono.h:1275-1288 | a day has one ISO year and week |
| `IsoWeek.TrueWeek` | third/fmt/include/fmt/chrono.h:1275-1288 | the ISO year and week of a date by the place of its week's Thursday |
| `IsoWeek.CorrectIff` | third/fmt/include/fmt/chrono.h:1275-1288 | both functions give the ISO year and week of a consistent date exactly unless its week number is 53 in a long year before 0, or 0 after such a year |
| `IsoWeek.CorrectFromYearOne` | third/fmt/include/fmt/chrono.h:1275-1288 | from year 1 on every consistent date is right |
| `IsoWeek.LongYearMissed` | third/fmt/include/fmt/chrono.h:1261-1288 | a date before year 0 that is wrong |

## Left out

- System calls, directory iteration and clocks: their results are parameters of the
  steps, within what each call may return; `fs::remove` is taken to succeed.
- Weak memory and condition-variable timing: every atomic access is one sequentially
  consistent step, and the wait of the writing thread is an iteration that changes
  nothing.
- LogWriterSpec.Step: the plain flags word and the volatile logging flag change only
  between iterations, because the source gives their races no meaning; the flags word
  is two booleans.
- RingSystem.Step: index sums are unbounded, because a capacity is at most PTRDIFF_MAX
  and the sums stay below 2^64 with it.
- RingBuffer.MultiWriteRingBuffer.Readed: a block that passes the test on a ring of
  capacity zero is not covered, because the source's index loop then never ends.
- Starting and joining threads, the asynchronous start of the pruning, its break
  flag (which the pruning loop never reads), the choice of file names.
- BigintClass.Bigint.DivmodAssign: requires a quotient that fits an int and a dividend
  whose zero is not above the divisor's exponent, because otherwise the source's loop
  does not end or overflows its counter; DivEndsIff and QuotientOverflowsIff say when.
- BigintClass.Bigint.AssignPow10: exponents from 2^30 on are not covered, because the
  source's mask overflows an int there; MaskFitsIff says so.
- TrailingZeros.RemoveTrailingZeros64: multiples of 10^8 * 2^32 are not covered,
  because the source's loop does not end for them; ZeroIsHandedOffIff says why.
- Dragon.FormatDragon: does not model the shortest form (a negative number of digits);
  requires an estimate that is not too low and exponents below 2^30 in size, as its
  callers provide. Exponents and digit counts are otherwise unbounded integers.
- FixedDigits.FormatSegment: starts from the first segment and its sticky bit; their
  computation from the cached powers of ten is not part of this model, nor is the
  printing of a zero value.
- DragonFixup.FixupSettles: requires an estimate at most one too high, as the source's
  estimate promises (third/fmt/include/fmt/format.h:3252-3253).
- FormatStrings.ShownIsParsed: requires a handler that keeps to the specifiers of each
  part; SpecifiersAreTaken says what happens for any other.
- Dragonbox shortest output and its power tables; hexadecimal and locale-dependent
  formatting.
- Utf8.FromUtf8 and Utf8.ToUtf8 cover the 2-byte form; the 4-byte form, which is the
  same loop without surrogates, and the build that throws instead of replacing are
  left out.
- fmt's own to_utf8 for 2-byte units, which does not append the combined code point.
- FormatParser.Parse: a handler answers from the fields and the text so far, not from
  how the text was cut into calls; the format specifiers themselves are the handler's.
  Output already written when an error is raised is not part of the outcome.
- IsoWeek.CorrectIff: years are unbounded integers.
- LoggerImpl, the logging macros, colours, the FIFO of the counter and lexical path
  operations: plumbing or easy members.
