# gologincase: verified core

The repository is a small TCP chat client and server that logs through spdlog 1.9.2 with fmt 8.0.1. This project
models the parts of these two libraries in which a mistake would be hardest to see, and proves what they are for.

- **Exact decimal conversion** (`Arith`, `Limbs`, `BigintLemmas`, `Columns`, `Bigint`, `Digits`, `Fallback`). fmt's
  multi-word integer as a class that works in place on 32-bit bigits with 64-bit wrapping arithmetic, and the digit
  generator on top of it, proved to round half to even.
- **Fast decimal conversion** (`WideMul`, `TrailingZeros`, `Grisu`, `Decimal`). Products from 32-bit halves,
  divisibility by a modular inverse, the Grisu generator that must say so when its digits cannot be trusted, digit
  counting by table, printing two digits at a time, reading back with a wrapping accumulator.
- **The asynchronous queue and pool** (`CircularQ`, `BlockingQueue`, `ThreadPool`, `Shutdown`). A ring buffer as a
  class; the two-condition-variable monitor around it as a step system in which a critical section is one step and the
  notification after it another; the worker pool and its shutdown by one terminate message per worker, which is shown
  to end.
- **Scanners and printers** (`FormatString`, `FormatPieces`, `FormatParsing`, `FormatGrammar`, `Localized`, `Utf8`). Two
  scanners for one format-string grammar, and what it is, locale grouping sized forwards and written backwards, branchless UTF-8 decoding over a padded tail.
- **The rotating file sink** (`RotatingSink`) over a map from names to contents.

`dafny verify dfyconfig.toml` checks everything.

Where the source changes state, the model does: fields, arrays and loops stand for the source's own. Each such method
is proved against a function of its inputs and old state; the lemmas say what that function means. Fixed-width
arithmetic is written out: bigits are below 2^32, words below 2^64, and a product or sum that the source computes in
such a type is reduced modulo the width where it could exceed it.

## What the proofs found

- `compare` (`format-inl.h`, lines 481-495) takes extra low bigits for non-zero. It is right exactly on `Comparable`
  operands. `fallback_format` does build denominators with zero low bigits (10^x shifted by one or two bits), so the
  bad ties are not excluded by form; they are excluded because a 53-bit significand times at least 2^32 is no power
  of ten (`Fallback.ScaledNeverEqual`).
- The borrow loop of `subtract_aligned` (line 400) does not advance. The difference is right exactly when the borrow
  fits, which holds for every subtraction of a division by a number with at most one bigit fewer
  (`BigintLemmas.ReadyToSubtract`).
- `grisu_gen_digits` passes `error * 10` with a value divided by ten to `on_start` (line 653), so the first decision
  gives up within about a hundred units of the midpoint where the error is one (`Grisu.NeedlessError`), never the
  other way round.
- `100000000 * quotient` in `remove_trailing_zeros` (line 1984) may exceed 32 bits; the wrapped difference is right.
- A pool whose queue has capacity zero never joins a worker: the destructor waits for ever. With room for one message
  it ends, provided every thread that stays able to move moves in the end.
- `add_compare` (lines 498-519) trusts bigit counts, which mean nothing for a zero with a large exponent; it is then
  right only if the other operand exceeds the third by itself.
- After a rotation on opening, `rotating_file_sink` keeps the size of the old file in its counter (lines 25-31), so
  the first message may rotate an empty file and push out the oldest one.
- A byte that cannot lead a UTF-8 sequence is visited as a code point without error (`code_point_length`).

## Model

| member | source | states |
|---|---|---|
| BigintClass.Accumulator.Add | contrib/spdlog/include/spdlog/fmt/bundled/format-inl.h:351-354 | the two-word running sum grows by exactly the 64-bit term, whatever carries between the words |
| BigintClass.Accumulator.ShiftBigit | contrib/spdlog/include/spdlog/fmt/bundled/format-inl.h:355-360 | dropping a bigit is exact division by 2^32, the dropped bigit being the remainder |
| BigintClass.Bigint.AssignFrom | contrib/spdlog/include/spdlog/fmt/bundled/format-inl.h:440-446 | copies value and exponent of the other number and leaves it alone |
| BigintClass.Bigint.Assign | contrib/spdlog/include/spdlog/fmt/bundled/format-inl.h:448-456 | a 64-bit number is represented exactly, without a leading zero bigit and with exponent zero |
| BigintClass.Bigint.Multiply32 | contrib/spdlog/include/spdlog/fmt/bundled/format-inl.h:404-413 | multiplies the represented value by the 32-bit argument; no leading zero bigit appears and the number grows by at most one bigit |
| BigintClass.Bigint.Multiply64 | contrib/spdlog/include/spdlog/fmt/bundled/format-inl.h:415-430 | multiplies the represented value by the 64-bit argument; at most two bigits are added and the top one is not zero |
| BigintLemmas.WideStep | contrib/spdlog/include/spdlog/fmt/bundled/format-inl.h:421-424 | the two 64-bit expressions of the wide multiplication never exceed 64 bits for any bigit, multiplier and carry, and together they are the exact product plus carry |
| BigintClass.Bigint.Shl | contrib/spdlog/include/spdlog/fmt/bundled/format-inl.h:460-473 | the value times 2^shift, for every shift, split between exponent and bigits |
| BigintClass.Compare | contrib/spdlog/include/spdlog/fmt/bundled/format-inl.h:481-495 | the result is the sign of the difference of the values if and only if the operands are Comparable |
| BigintLemmas.PaddedTie | contrib/spdlog/include/spdlog/fmt/bundled/format-inl.h:489-494 | a concrete failing pair: 2^32 as two bigits and as one bigit with exponent one are equal and judged unequal |
| BigintLemmas.CompareExactIff | contrib/spdlog/include/spdlog/fmt/bundled/format-inl.h:481-495 | what the comparison loop decides equals the sign of the difference exactly when no zero operand outranks the other by its exponent and neither is the other padded with zero bigits |
| BigintLemmas.EqualCountTie | contrib/spdlog/include/spdlog/fmt/bundled/format-inl.h:489-494 | two numbers of the same bigit count are equal exactly when one is the other with zero bigits below: the only ties the comparison gets wrong |
| BigintClass.AddCompare | contrib/spdlog/include/spdlog/fmt/bundled/format-inl.h:498-519 | for arbitrary exponents and without forming the sum, the result is the sign of lhs1 + lhs2 - rhs if and only if the bigit counts are meaningful (AddComparable), or the only operand that outranks rhs is zero and the other one exceeds rhs by itself |
| BigintLemmas.ZeroOutranks | contrib/spdlog/include/spdlog/fmt/bundled/format-inl.h:500-503 | a concrete failing input of both comparisons: a zero with a large exponent is taken to exceed one |
| BigintClass.AddCompareLoop | contrib/spdlog/include/spdlog/fmt/bundled/format-inl.h:507-518 | the loop with its early exits decides the sign for any three numbers whose first two have no more bigits than the third |
| BigintLemmas.GapDecides | contrib/spdlog/include/spdlog/fmt/bundled/format-inl.h:512-516 | whatever lies below the bigits looked at, a negative gap or a gap above one already decides the comparison |
| BigintLemmas.CountsDecide | contrib/spdlog/include/spdlog/fmt/bundled/format-inl.h:500-503 | when the two exits on bigit counts alone are right: always, unless the operand that outranks the others is zero |
| BigintClass.Bigint.AddTerms | contrib/spdlog/include/spdlog/fmt/bundled/format-inl.h:551-562 | the inner loops add exactly the cross products n[i] * n[k - i] of their range to the running sum, which cannot overflow |
| BigintClass.Bigint.Square | contrib/spdlog/include/spdlog/fmt/bundled/format-inl.h:541-568 | the value is squared exactly, exponent included |
| Columns.ColumnsAreProduct | contrib/spdlog/include/spdlog/fmt/bundled/format-inl.h:548-565 | the column sums of a number with itself, each at its place, add up to the square of the number |
| BigintClass.Bigint.AssignPow10 | contrib/spdlog/include/spdlog/fmt/bundled/format-inl.h:522-539 | the number becomes 10^n for every n |
| Columns.PrefixStep | contrib/spdlog/include/spdlog/fmt/bundled/format-inl.h:530-537 | one round of square-and-multiply takes the exponent from one binary prefix of n to the next |
| BigintClass.Bigint.SubtractBigits | contrib/spdlog/include/spdlog/fmt/bundled/format-inl.h:380-384 | one bigit of the difference and its borrow, read from the top bit of the wrapped 64-bit result, are exact |
| BigintClass.Bigint.RemoveLeadingZeros | contrib/spdlog/include/spdlog/fmt/bundled/format-inl.h:386-390 | the value stays and the top bigit is not zero unless it is the only one |
| BigintClass.Bigint.SubtractAligned | contrib/spdlog/include/spdlog/fmt/bundled/format-inl.h:393-402 | the result is the difference if and only if BorrowFits: nothing is borrowed past the subtrahend, or the next bigit can lend |
| BigintLemmas.SubtractionResult | contrib/spdlog/include/spdlog/fmt/bundled/format-inl.h:396-400 | a borrow loop that never moves on yields the true difference exactly when the borrow fits |
| BigintLemmas.BorrowNeedsFit | contrib/spdlog/include/spdlog/fmt/bundled/format-inl.h:400-400 | a concrete pair, 2^64 and 1, for which the subtraction would be wrong |
| BigintLemmas.TenTimesBound | contrib/spdlog/include/spdlog/fmt/bundled/format-inl.h:584-596 | below ten times the divisor a number has at most one bigit more than it |
| BigintLemmas.ReadyToSubtract | contrib/spdlog/include/spdlog/fmt/bundled/format-inl.h:589-592 | with at most one bigit more than the divisor and not below it, every subtraction of the division is exact |
| BigintClass.Bigint.Align | contrib/spdlog/include/spdlog/fmt/bundled/format-inl.h:572-581 | lowering the exponent to the other's by zero bigits leaves the value and the bigit count unchanged |
| BigintClass.Bigint.DivmodAssign | contrib/spdlog/include/spdlog/fmt/bundled/format-inl.h:585-596 | with at most one bigit more than the divisor: old value = quotient * divisor + new value with 0 <= new value <= divisor, the quotient below ten below ten times the divisor; the new value is below the divisor exactly when it is not the divisor written without its low zero bigits; the loop ends |
| Fallback.NextDigit | contrib/spdlog/include/spdlog/fmt/bundled/format-inl.h:2307-2308 | one digit below ten and a remainder below the denominator: quotient and remainder of the scaled fraction |
| Fallback.PropagateCarry | contrib/spdlog/include/spdlog/fmt/bundled/format-inl.h:2314-2327 | rounding up a nine leaves digits that denote the successor; the exponent is bumped if and only if all digits before were nines, and then the text is a one followed by zeros |
| Fallback.GenerateDigits | contrib/spdlog/include/spdlog/fmt/bundled/format-inl.h:2297-2331 | the characters written are decimal digits denoting numerator / denominator * 10^(n-1) rounded half to even, with the decimal exponent adjusted for n digits; only if the text is a one followed by zeros may it be one more, and the first digit is not zero unless the fraction is below one; with n = 0 a single 0 or 1 |
| Fallback.SetUp | contrib/spdlog/include/spdlog/fmt/bundled/format-inl.h:2229-2265 | in all three cases numerator / denominator is f * 2^e / 10^x, and no remainder can be mistaken for the denominator |
| Fallback.ScaledNeverEqual | contrib/spdlog/include/spdlog/fmt/bundled/format-inl.h:2233-2244 | a 53-bit significand scaled by at least 2^32 never meets the denominator with any number of zeros appended, so the comparison's bad ties cannot arise |
| Fallback.FallbackFormat | contrib/spdlog/include/spdlog/fmt/bundled/format-inl.h:2217-2331 | for every positive 53-bit significand f, exponent e and digit count: the digits written are f * 2^e over the power of ten of the last place, rounded half to even, with the same shape of a carry and no leading zero |
| Fallback.RoundedValue | contrib/spdlog/include/spdlog/fmt/bundled/format-inl.h:2266-2331 | rounding the scaled fraction is rounding f * 2^e itself at the place the digits end |
| Digits.RoundedUnique | contrib/spdlog/include/spdlog/fmt/bundled/format-inl.h:2297-2331 | there is only one correct rounding, so the digits are determined by the value |
| Digits.RoundByRemainder | contrib/spdlog/include/spdlog/fmt/bundled/format-inl.h:2311-2329 | comparing twice the remainder with the denominator, ties by the parity of the digit, is rounding half to even |
| Digits.CarryMoves | contrib/spdlog/include/spdlog/fmt/bundled/format-inl.h:2318-2321 | one step of the carry loop keeps the number denoted |
| WideMul.MultiplyRounds | contrib/spdlog/include/spdlog/fmt/bundled/format-inl.h:258-273 | the 32-bit-limb code is the product divided by 2^64 rounded half up, for all operands |
| WideMul.NormalizedProduct | contrib/spdlog/include/spdlog/fmt/bundled/format-inl.h:275-275 | the product of two normalized significands keeps one of its two top bits set |
| WideMul.Umul128Exact | contrib/spdlog/include/spdlog/fmt/bundled/format-inl.h:828-853 | high and low words are the exact 128-bit product, for all operands |
| WideMul.PlusExact | contrib/spdlog/include/spdlog/fmt/bundled/format-inl.h:810-821 | adding a word to a 128-bit number is exact as long as the sum fits |
| WideMul.Umul192UpperExact | contrib/spdlog/include/spdlog/fmt/bundled/format-inl.h:869-873 | the upper word is the whole part of x * y / 2^128 |
| WideMul.Umul192MiddleExact | contrib/spdlog/include/spdlog/fmt/bundled/format-inl.h:883-887 | the middle word is x * y / 2^64 modulo 2^64 |
| TrailingZeros.InverseTest | contrib/spdlog/include/spdlog/fmt/bundled/format-inl.h:952-992 | for any odd-inverse pair: x * inv mod m is at most (m-1)/d exactly when d divides x, and is then the quotient |
| TrailingZeros.GoodTable32 | contrib/spdlog/include/spdlog/fmt/bundled/format-inl.h:955-961 | every row of the 32-bit table holds the inverse of 5^k and the largest quotient |
| TrailingZeros.GoodTable64 | contrib/spdlog/include/spdlog/fmt/bundled/format-inl.h:966-990 | every row of the 64-bit table holds the inverse of 5^k and the largest quotient |
| TrailingZeros.Word32TestExact | contrib/spdlog/include/spdlog/fmt/bundled/format-inl.h:953-963 | the 32-bit test is divisibility by 5^k, for every x and every k up to 10 |
| TrailingZeros.Word64TestExact | contrib/spdlog/include/spdlog/fmt/bundled/format-inl.h:964-992 | the 64-bit test is divisibility by 5^k, for every x and every k up to 23 |
| TrailingZeros.RemoveTrailingZeros32 | contrib/spdlog/include/spdlog/fmt/bundled/format-inl.h:1919-1944 | n = n' * 10^s with s at most 7 and no further zero unless s is 7, for every n > 0 |
| TrailingZeros.RemoveTrailingZeros64 | contrib/spdlog/include/spdlog/fmt/bundled/format-inl.h:1947-2029 | n = n' * 10^s with s at most 16 and no further zero unless s is 16, for every 0 < n < 10^17, all wrapping products included |
| TrailingZeros.CountOn | contrib/spdlog/include/spdlog/fmt/bundled/format-inl.h:1968-1979 | after 10^8 is divided out the count goes on to the last zero |
| TrailingZeros.Cascade | contrib/spdlog/include/spdlog/fmt/bundled/format-inl.h:1982-2028 | without a factor 10^8 the cascade over the last eight digits finds every zero |
| Grisu.GetRoundDirection | contrib/spdlog/include/spdlog/fmt/bundled/format-inl.h:605-619 | down, up and unknown exactly as remainder - error .. remainder + error lies below, above or across half the divisor; no intermediate overflows |
| Grisu.NearHalfOfReals | contrib/spdlog/include/spdlog/fmt/bundled/format-inl.h:636-638 | what done promises, said of every real number strictly within one unit of the scaled input: the digits are within half a unit of their last place |
| Grisu.FixedHandler.OnStart | contrib/spdlog/include/spdlog/fmt/bundled/format-inl.h:727-742 | done without digits only if the precision ends above the first digit, one rounded digit if it ends right there, an error only if rounding is undecided |
| Grisu.FixedHandler.OnDigit | contrib/spdlog/include/spdlog/fmt/bundled/format-inl.h:744-774 | the digit is appended; done means the digits, rounded by the verdict on the remainder, are right; error means they are undecided |
| Grisu.FixedHandler.RoundUp | contrib/spdlog/include/spdlog/fmt/bundled/format-inl.h:761-772 | the digits denote one more than before; the exponent is bumped or, in fixed notation, a zero appended if and only if all digits were nines, and then the text is a one followed by zeros; no leading zero appears |
| Grisu.IntegralRound | contrib/spdlog/include/spdlog/fmt/bundled/format-inl.h:657-706 | one integral digit: what was emitted and what is left add up to the value |
| Grisu.FractionRound | contrib/spdlog/include/spdlog/fmt/bundled/format-inl.h:708-716 | one fractional digit: what was emitted, what is left and the tenfold error stay in step; no 64-bit product wraps |
| Grisu.GrisuGenDigits | contrib/spdlog/include/spdlog/fmt/bundled/format-inl.h:640-717 | done: every real within the error of the input is within half a unit in the last place of the digits, and there are as many digits as asked for; error after a digit: a digit boundary or the midpoint of the last unit is within the error; error before any digit: exactly when the precision ends above the first digit and the midpoint is within ten of a tenth of the value; the exponent moves only over a one followed by zeros, the first digit is not zero unless the precision ends above it, at most 30 characters are written and the loops end |
| Grisu.NeedlessError | contrib/spdlog/include/spdlog/fmt/bundled/format-inl.h:652-655 | a concrete value given up before any digit although every number within the error rounds the same way |
| Grisu.NeededExactly | contrib/spdlog/include/spdlog/fmt/bundled/format-inl.h:727-742 | giving up before any digit is needed exactly when neither of the two possible digits is right for every number within the error |
| Decimal.CountDigitsFallback | contrib/spdlog/include/spdlog/fmt/bundled/format.h:899-912 | the number of decimal digits of any number |
| Decimal.CountDigits64Exact | contrib/spdlog/include/spdlog/fmt/bundled/format.h:921-939 | the table by top bit gives the number of decimal digits of every 64-bit number |
| Decimal.CountDigits32Exact | contrib/spdlog/include/spdlog/fmt/bundled/format.h:959-988 | adding the table entry and taking the upper half gives the number of decimal digits of every 32-bit number |
| Decimal.DecimalStringDenotes | contrib/spdlog/include/spdlog/fmt/bundled/format.h:1046-1078 | the reference numeral denotes its number, has as many digits as counted and no leading zero |
| Decimal.FormatDecimal | contrib/spdlog/include/spdlog/fmt/bundled/format.h:1050-1078 | exactly the counted number of places before the end is filled with the numeral; nothing else in the buffer changes |
| Decimal.ParseNonnegativeInt | contrib/spdlog/include/spdlog/fmt/bundled/core.h:2096-2116 | the value of the digit run if it has at most ten digits and fits an int, else the error value, although the accumulator wraps; stops right after the run |
| Decimal.ParseInvertsFormat | contrib/spdlog/include/spdlog/fmt/bundled/core.h:2096-2116 | a printed number followed by anything but a digit is read as one run denoting it |
| CircularQ.CircularQ.Disabled | contrib/spdlog/include/spdlog/details/circular_q.h:25-25 | a queue that never holds anything |
| CircularQ.CircularQ.constructor | contrib/spdlog/include/spdlog/details/circular_q.h:27-30 | an empty queue of the given capacity, one place more being allocated as the full marker |
| CircularQ.CircularQ.PushBack | contrib/spdlog/include/spdlog/details/circular_q.h:49-62 | the contents become the last capacity elements of contents plus item; the overrun counter counts exactly the dropped ones |
| CircularQ.CircularQ.Front | contrib/spdlog/include/spdlog/details/circular_q.h:66-74 | the oldest element |
| CircularQ.CircularQ.Size | contrib/spdlog/include/spdlog/details/circular_q.h:77-87 | the number of elements, wrapped around or not |
| CircularQ.CircularQ.At | contrib/spdlog/include/spdlog/details/circular_q.h:91-95 | the i-th oldest element |
| CircularQ.CircularQ.PopFront | contrib/spdlog/include/spdlog/details/circular_q.h:99-102 | the contents lose their oldest element |
| CircularQ.CircularQ.Empty | contrib/spdlog/include/spdlog/details/circular_q.h:104-107 | true exactly when there are no elements |
| CircularQ.CircularQ.Full | contrib/spdlog/include/spdlog/details/circular_q.h:109-117 | true exactly when the next push drops an element |
| CircularQ.CircularQ.MoveFrom | contrib/spdlog/include/spdlog/details/circular_q.h:126-138 | the contents and counters move over and the source is left disabled |
| CircularQ.KeepsLastPushes | contrib/spdlog/include/spdlog/details/circular_q.h:49-117 | over any mix of pushes and pops: pushed = popped + overrun + held, and what is held is exactly the latest pushes |
| CircularQ.CarryOut | contrib/spdlog/include/spdlog/details/circular_q.h:49-122 | the ring carries out any such run as the bounded sequence does: contents, overruns and everything popped |
| BlockingQueue.StepKeepsInv | contrib/spdlog/include/spdlog/details/mpmc_blocking_q.h:32-67 | every critical section, notification, wake-up and time-out of any thread keeps conservation and the two wake-up promises |
| BlockingQueue.RunKeepsInv | contrib/spdlog/include/spdlog/details/mpmc_blocking_q.h:32-67 | in every reachable state of every interleaving the invariant holds |
| BlockingQueue.NoLostWakeups | contrib/spdlog/include/spdlog/details/mpmc_blocking_q.h:32-67 | in every reachable state, while a producer sleeps the free places are covered by notifications pending or delivered, and while a consumer sleeps the queued items are |
| BlockingQueue.EnqueueWaitsIfFull | contrib/spdlog/include/spdlog/details/mpmc_blocking_q.h:32-40 | a reachable blocking enqueue waits, leaving the queue as it is, exactly when the queue is full; otherwise its message is the newest in the queue and a consumer is to be notified |
| BlockingQueue.NowaitNeverWaits | contrib/spdlog/include/spdlog/details/mpmc_blocking_q.h:43-50 | with capacity, a reachable enqueue_nowait never waits: its message is the newest in the queue afterwards and the oldest one goes exactly when the queue was full |
| BlockingQueue.DequeueOutcomes | contrib/spdlog/include/spdlog/details/mpmc_blocking_q.h:54-67 | a dequeue gets the oldest message if there is one, also when its wait has just timed out; it ends without a message only after a time-out on an empty queue |
| BlockingQueue.RunConserves | contrib/spdlog/include/spdlog/details/mpmc_blocking_q.h:32-67 | over any run: pushed = dequeued + overrun + resident, first in first out, and nothing is overrun if only blocking enqueues are used |
| BlockingQueue.RunAccounts | contrib/spdlog/include/spdlog/details/mpmc_blocking_q.h:32-50 | over any run and for every message: the calls of enqueue and enqueue_nowait with it are its pushes and the threads that still carry it |
| BlockingQueue.PushOnRing | contrib/spdlog/include/spdlog/details/mpmc_blocking_q.h:37-47 | the ring buffer does to its contents and overrun counter what the step system's push does |
| BlockingQueue.PopOnRing | contrib/spdlog/include/spdlog/details/mpmc_blocking_q.h:62-63 | the ring buffer gives out and forgets what the step system's pop does |
| ThreadPool.NewPoolInv | contrib/spdlog/include/spdlog/details/thread_pool-inl.h:16-31 | a pool is refused exactly for no thread or more than a thousand, and starts in the invariant otherwise |
| ThreadPool.ActKeepsInv | contrib/spdlog/include/spdlog/details/thread_pool-inl.h:38-126 | every step of workers, posters and destructor keeps the invariant: terminate messages balance, stay at the back of the queue and are never overrun; nothing taken out is lost |
| Shutdown.WorkShrinks | contrib/spdlog/include/spdlog/details/thread_pool-inl.h:38-53 | during shutdown no step of any thread adds work, time-outs included, and every step takes some away except waking up, starting to look for a message and looking in vain |
| Shutdown.ShutdownBounded | contrib/spdlog/include/spdlog/details/thread_pool-inl.h:38-53 | so only as many steps take work away as there was work, however often workers time out in between |
| Shutdown.SomeoneKeen | contrib/spdlog/include/spdlog/details/thread_pool-inl.h:42-50 | until the last join, if the queue has room for one message, some thread's next move takes work away, or a worker outside is called to a non-empty queue |
| Shutdown.EagerStays | contrib/spdlog/include/spdlog/details/thread_pool-inl.h:88-126 | a thread whose next move takes work away stays so under everybody else's steps until work is taken away |
| Shutdown.CalledStays | contrib/spdlog/include/spdlog/details/thread_pool-inl.h:88-126 | a called worker stays called or, by its next move, becomes such a thread |
| Shutdown.TwoRounds | contrib/spdlog/include/spdlog/details/thread_pool-inl.h:38-53 | two rounds in which every thread that stays able to move does so take work away, unless all workers are joined |
| Shutdown.FairRoundAhead | contrib/spdlog/include/spdlog/details/thread_pool-inl.h:38-126 | every run can be continued by such a round |
| Shutdown.ShutdownEnds | contrib/spdlog/include/spdlog/details/thread_pool-inl.h:38-53 | a shutdown of more than twice as many rounds as there was work ends with every worker joined |
| Shutdown.JoinedAll | contrib/spdlog/include/spdlog/details/thread_pool-inl.h:47-50 | after the last join the queue is empty, each worker has acted on exactly one terminate message, and every message pushed was handled or overrun |
| Shutdown.PoolAccounts | contrib/spdlog/include/spdlog/details/thread_pool-inl.h:55-86 | over any run and for every message: the posts of it, terminate messages included, are its pushes and the threads that still carry it |
| Shutdown.ShutdownCompletes | contrib/spdlog/include/spdlog/details/thread_pool-inl.h:38-126 | on every run from the constructor on, any interleaving and any time-outs, with capacity at least one: within a number of rounds that depends on threads and capacity alone the destructor has joined every worker, the queue is empty, each worker has taken one terminate message, and every message posted, not only pushed, was handled or overrun, as often as posted |
| ThreadPool.NoCapacityNoJoin | contrib/spdlog/include/spdlog/details/thread_pool-inl.h:42-50 | with capacity zero no worker is ever joined, on any run: the capacity condition is necessary |
| FormatString.ReadArgId | contrib/spdlog/include/spdlog/fmt/bundled/core.h:2163-2200 | an argument id is told as automatic, index or name, or is an error, as the grammar says |
| FormatPieces.FieldScans | contrib/spdlog/include/spdlog/fmt/bundled/core.h:2342-2379 | a printed field asks the handler for the argument and hands that very answer back with the field or its spec, each at its position; a spec is accepted exactly if the handler read all of it; the scan goes on behind the closing brace |
| FormatPieces.FieldWasPrinted | contrib/spdlog/include/spdlog/fmt/bundled/core.h:2342-2379 | conversely a replacement field that parses is a printed one, and the handler has heard just that |
| FormatString.ScanShort | contrib/spdlog/include/spdlog/fmt/bundled/core.h:2389-2406 | the one-pass loop means Scan, on every string and handler |
| FormatString.Write | contrib/spdlog/include/spdlog/fmt/bundled/core.h:2407-2422 | the second pass over text without opening braces leaves the scan where the one-pass scan would be |
| FormatString.ScanLong | contrib/spdlog/include/spdlog/fmt/bundled/core.h:2423-2431 | the two-pass scanner means the same Scan: same acceptance, same events, same texts in order |
| FormatString.ParseFormatString | contrib/spdlog/include/spdlog/fmt/bundled/core.h:2382-2432 | the outcome does not depend on the length switch |
| FormatGrammar.EscapeRoundTrip | contrib/spdlog/include/spdlog/fmt/bundled/core.h:2382-2432 | doubling every brace of any text and scanning it gives the text back, asking the handler nothing |
| FormatPieces.ArgReadsBack | contrib/spdlog/include/spdlog/fmt/bundled/core.h:2163-2200 | a printed argument id is read back as the event it stands for |
| FormatPieces.ArgWasPrinted | contrib/spdlog/include/spdlog/fmt/bundled/core.h:2163-2200 | an argument id that is read is empty, a number without leading zeros or a name, and was told as such |
| FormatPieces.NumberIsTold | contrib/spdlog/include/spdlog/fmt/bundled/core.h:2168-2180 | every number that fits an int, printed in decimal, is an index told as that number |
| FormatPieces.PiecesScan | contrib/spdlog/include/spdlog/fmt/bundled/core.h:2381-2432 | printed characters and replacement fields are scanned as what the handler should hear of them, from any point on and with text pending |
| FormatParsing.ScanWasPrinted | contrib/spdlog/include/spdlog/fmt/bundled/core.h:2381-2432 | whatever scans without error, from any point on, was printed from pieces and was heard as these |
| FormatGrammar.AcceptedExactly | contrib/spdlog/include/spdlog/fmt/bundled/core.h:2342-2432 | for any handler, a string is accepted if and only if it is printed from characters and replacement fields the handler accepts, and it then hears exactly these, in order, text cut at its braces |
| Localized.SizeForwards | contrib/spdlog/include/spdlog/fmt/bundled/format.h:1407-1416 | the size counted forwards is the number of digits plus the separators between groups, the last group repeating and an unlimited one ending the count |
| Localized.WriteBackwards | contrib/spdlog/include/spdlog/fmt/bundled/format.h:1424-1440 | a buffer of the computed size is filled exactly: prefix, digits and separators |
| Localized.WriteIntLocalized | contrib/spdlog/include/spdlog/fmt/bundled/format.h:1397-1447 | refuses exactly without a separator; else the output is the low character of the prefix if there is one, then the numeral with a separator in front of d digits exactly where some leading groups have d digits together, the last group repeating and none reaching past a group that is not positive or 127; without separators it denotes the value |
| Localized.GroupedIsSpaced | contrib/spdlog/include/spdlog/fmt/bundled/format.h:1424-1438 | grouping from the right, one group after the other, puts the separators exactly where sums of leading groups end |
| Localized.GroupedLength | contrib/spdlog/include/spdlog/fmt/bundled/format.h:1407-1419 | sizes computed forwards and strings grouped from the right agree for every grouping list |
| Localized.LocalizedReadsBack | contrib/spdlog/include/spdlog/fmt/bundled/format.h:1397-1447 | deleting the separators leaves a numeral of the value without a leading zero |
| Localized.FitsBuffer | contrib/spdlog/include/spdlog/fmt/bundled/format.h:1417-1418 | no 128-bit number needs more digits than the local buffer has |
| Utf8.DecodeExact | contrib/spdlog/include/spdlog/fmt/bundled/format.h:451-480 | no error exactly when the bytes are those of the decoded scalar value or the lead byte cannot lead |
| Utf8.BytesByRange | contrib/spdlog/include/spdlog/fmt/bundled/chrono.h:335-348 | lead and tail bytes are in their ranges and carry the bits of the scalar value, highest first, in the number of bytes its range takes |
| Utf8.BytesDecode | contrib/spdlog/include/spdlog/fmt/bundled/format.h:451-480 | the encoding of any scalar value decodes to it without error, whatever bytes follow |
| Utf8.ForEachCodepoint | contrib/spdlog/include/spdlog/fmt/bundled/format.h:482-505 | on arbitrary bytes: visits the code point at position 0 and then at every position as many bytes further as the lead byte asks for, errors or not, until the string is used up; every read is in bounds and the loops end |
| Utf8.VisitTail | contrib/spdlog/include/spdlog/fmt/bundled/format.h:497-504 | the padded block of seven bytes gives the same visits as the padded string |
| Utf8.EncodeRoundTrip | contrib/spdlog/include/spdlog/fmt/bundled/format.h:482-505 | iterating over the encoding of any scalar values visits exactly these, each with error 0 |
| Utf8.SoundExactly | contrib/spdlog/include/spdlog/fmt/bundled/format.h:482-505 | a string is the encoding of some scalar values if and only if every visit is without error and starts at a byte that can lead |
| Utf8.StrayByteGoesUnnoticed | contrib/spdlog/include/spdlog/fmt/bundled/core.h:2064-2074 | a concrete malformed string that is visited without error: a byte that cannot lead counts as length 1 |
| Utf8.EncodeUnits | contrib/spdlog/include/spdlog/fmt/bundled/chrono.h:325-352 | succeeds exactly on the code units of some scalar values, surrogate pairs included when units are short, and then appends their encoding |
| Utf8.TextIsUnits | contrib/spdlog/include/spdlog/fmt/bundled/chrono.h:325-334 | what is read from code units is what they encode |
| Utf8.UnitsAreText | contrib/spdlog/include/spdlog/fmt/bundled/chrono.h:325-334 | the code units of any scalar values are read back as these |
| Utf8.UnitsByRange | contrib/spdlog/include/spdlog/fmt/bundled/chrono.h:325-334 | a value beyond 16 bits has a high and a low surrogate as its 16-bit units, ten bits each of what it exceeds 0x10000 by |
| RotatingSink.SplitExactly | contrib/spdlog/include/spdlog/details/file_helper-inl.h:124-144 | a name is split in front of its last dot exactly if something follows the dot, it is not the first character of the file name and no folder separator follows; else it is left whole |
| RotatingSink.NameExactly | contrib/spdlog/include/spdlog/sinks/rotating_file_sink-inl.h:44-54 | the index goes in front of the extension if there is one, else to the end, and index zero changes nothing |
| RotatingSink.NamesDistinct | contrib/spdlog/include/spdlog/sinks/rotating_file_sink-inl.h:44-54 | files of different age have different names, whatever the base name |
| RotatingSink.Sink.constructor | contrib/spdlog/include/spdlog/sinks/rotating_file_sink-inl.h:18-33 | opens for appending and rotates if asked to and not empty |
| RotatingSink.Sink.RenameFile | contrib/spdlog/include/spdlog/sinks/rotating_file_sink-inl.h:111-116 | the target is gone in any case; if the system lets it the source takes its place, and the result says so |
| RotatingSink.Sink.Rotate | contrib/spdlog/include/spdlog/sinks/rotating_file_sink-inl.h:82-107 | the loop does to the files what a rotation is said to do, renames working |
| RotatingSink.ShiftedFile | contrib/spdlog/include/spdlog/sinks/rotating_file_sink-inl.h:86-105 | every file moves exactly one place up, whatever gaps there are, and the last one goes only if another takes its place |
| RotatingSink.Sink.SinkIt | contrib/spdlog/include/spdlog/sinks/rotating_file_sink-inl.h:63-74 | the message goes to the base file, after a rotation exactly when the counter would exceed the limit |
| RotatingSink.RotatedHistory | contrib/spdlog/include/spdlog/sinks/rotating_file_sink-inl.h:82-107 | a rotation empties the base file and loses the oldest file when something takes its place, and nothing else |
| RotatingSink.LoggedHistory | contrib/spdlog/include/spdlog/sinks/rotating_file_sink-inl.h:63-74 | what the files held before, plus the message, is what was dropped followed by what they hold now |
| RotatingSink.FilesAreWhole | contrib/spdlog/include/spdlog/sinks/rotating_file_sink-inl.h:18-107 | from opening on, over any run and for any file system: the files, read oldest to newest, hold the last of the old files and messages, each whole, and every file begins with a whole one |
| RotatingSink.MessagesAreWhole | contrib/spdlog/include/spdlog/sinks/rotating_file_sink-inl.h:18-107 | with no old files the files hold exactly the last so many messages, none cut |
| RotatingSink.FilesAreSuffix | contrib/spdlog/include/spdlog/sinks/rotating_file_sink-inl.h:18-107 | in particular they hold an end of what was there and all messages |
| RotatingSink.FilesAreBounded | contrib/spdlog/include/spdlog/sinks/rotating_file_sink-inl.h:63-107 | after any run each file of the family is within the limit, or a single message, or what a file of the family held before |
| RotatingSink.FilesElsewhere | contrib/spdlog/include/spdlog/sinks/rotating_file_sink-inl.h:63-107 | no name outside the max_files + 1 of the family appears, disappears or changes |
| RotatingSink.OpenedExact | contrib/spdlog/include/spdlog/sinks/rotating_file_sink-inl.h:24-32 | after opening, the counter is the size of the base file exactly unless a non-empty file was rotated on opening |
| RotatingSink.CounterExact | contrib/spdlog/include/spdlog/sinks/rotating_file_sink-inl.h:63-74 | over any run the counter is the size of the base file exactly when it was at first or a message has rotated since |
| RotatingSink.BaseAfter | contrib/spdlog/include/spdlog/sinks/rotating_file_sink-inl.h:63-74 | while the counter is right, the base file afterwards is old contents plus message exactly if that is within the limit, else the message alone |
| RotatingSink.NeedlessRotation | contrib/spdlog/include/spdlog/sinks/rotating_file_sink-inl.h:24-32 | with the counter stale after a rotation on opening, a message that fits rotates an empty file exactly when old size and message exceed the limit, which with one old file kept loses all that was there |

## Left out

- BigintClass.Bigint.Square: numbers of more than 2^30 bigits, beyond what a memory buffer of `int` size could square; the sum of a column could then overflow its 128 bits.
- BigintClass.Bigint.AssignPow10: exponents of 2^30 and more, where the source's `int` bit mask and exponent arithmetic overflow.
- BigintClass.Bigint.DivmodAssign: dividends with two or more bigits more than the divisor, for which a subtraction need not be exact (`BigintLemmas.BorrowNeedsFit`), and quotients beyond `int`. The exact condition for a remainder below the divisor is met by the callers (`Fallback.NeverPadded`).
- Fallback.FallbackFormat: the decimal exponent is a parameter, required only to make the value less than ten units of it; the estimate that provides it in `format_float` is not part of this model.
- Grisu.GrisuGenDigits: the scaled input is a parameter with the exponent range the caller guarantees; the cached powers and the bound on their error are not part of this model.
- CircularQ.CircularQ.Front: the mutable overload; moved-from elements are not distinguished from others.
- FormatPieces.FieldScans: format specs are the handler's business: it answers with the number of characters it read; `parse_format_specs` is not part of this model.
- FormatString.ParseFormatString: an error handler that returns instead of throwing; after an error the model's scan stops. Empty texts are not told.
- Localized.WriteIntLocalized: padding to a width (`write_padded`) around the grouped number.
- Utf8.ForEachCodepoint: the visitor is a list of its calls; it cannot stop the iteration (nor can the source's).
- RotatingSink.Sink.Rotate: the retry, truncation and exception after a rename that fails; sizes beyond 64 bits.
- Shutdown.ShutdownCompletes: a scheduler that never again runs a thread which could move; without one no shutdown ends.
- The shortest-digits branch of `fallback_format`, with the boundaries `lower` and `upper`: `format_float` sends shortest output to Dragonbox.
- Dragonbox `to_decimal` and its power tables, and the helpers on small finite domains (`floor_log10_pow2`, `small_division_by_pow10`, `check_divisibility_and_divide_by_pow5`).
- The code that compilers with a 128-bit integer use instead of the limb arithmetic, and the constant-evaluated loop of `format_decimal`.
- The inline capacity of a bigint's buffer, asserted in its destructor: buffers here grow as needed.
- The mutex itself (a critical section is one step), the MinGW variant that notifies under the lock, and how long a wait lasts: a time-out is a wake-up that finds its time up.
- Sinks and thread-start callbacks that throw inside a worker.
- Packet framing in `src/tcp`: a header of two fixed fields whose readers mirror its writer, an easy round trip under the assumption of complete reads.
- Sockets, accept loops, user interface, authentication, configuration, JSON packing, the other sinks, registry and levels, time and operating-system calls.
