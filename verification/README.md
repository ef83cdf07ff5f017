# Verification model of the shared Go library

This project models the algorithms and concurrent protocols of a shared Go library and proves properties of
them for all inputs, all runs or all reachable states. `dafny verify dfyconfig.toml` checks everything.

| files | what they model |
|---|---|
| `TokenBucket`, `RateLimiter`, `KeyExpiry`, `KeyedLimiter` | the token bucket that runs as a Redis script, its key expiry, the limiter around it |
| `KeyLock`, `KeyLockSweep`, `KeyLockObject` | the per-key lock whose idle entries are collected while it is in use |
| `IntegerMath`, `Decimals`, `DecimalRounding`, `DecimalOverflow`, `DecimalRemainder`, `DecimalCash`, `DecimalPow`, `DecimalPowNegative`, `DecimalText`, `DecimalNumeral`, `DecimalFloat` | fixed-point decimals: arithmetic, division with int32 exponents, rounding, remainder, cash rounding, powers, printing and parsing, decoding of binary64 |
| `DecimalObject` | the same operations on shared `big.Int` objects that are overwritten in place |
| `Sequence` | the allocator that reserves blocks of numbers in a database row |
| `BlockingQueue` | the queue built from a mutex and a condition variable |
| `Uuid`, `UuidText` | version 1 and 2 UUIDs (RFC 4122): clock, clock sequence, layout, text form |
| `WaitRegistry` | the 64-shard registry of one-shot channels |

How the source's forms appear:

- A concurrent component is a state machine (`Enabled`, `Apply`, `Run`) whose steps are the atomic sections
  of the program, and a class with the program's fields, one method per atomic section, each proved to be
  that machine step (`View() == Apply(old(View()), step)`). The theorems are about every run of the machine.
- A component serialised by one lock is a class whose methods are proved against a step function; the
  theorems are about every sequence of calls, crashes included.
- The decimal operations are functions on (value, exponent) and, in `DecimalObject`, methods on mutable
  integers that are proved to return what the functions return and to modify nothing that existed before.
- A call that panics returns `None`, or an outcome of its own.

Times, random choices, database and store failures are parameters, so a theorem holds for all of them.

Where the code and its documentation disagree, the model follows the code:

- `retry_after` is documented as the wait after which to retry. With the caller's clock behind the stored
  time a retry after it can still be refused; `HintAdmittedIff` says exactly when, `RetryHintTooShort` gives an
  input.
- The limiter is described as one bucket per key. A key that expires early, because the store's clock runs
  ahead of the callers', is refilled early. `ExpiryInvisibleIff` says exactly how far it may run ahead before
  that shows, `AdmittedWithExpiry` how much it can add.
- `Mod` is documented as the remainder. It is a remainder of the right size except near a multiple of the
  divisor, where it has the wrong sign; `ModExactIff` says exactly when, `ModCanBeNegative` gives an input.
- `QuoRem` is written to panic when an exponent difference leaves int32. The difference is an int32 before it
  is checked, so the check never fires (`OverflowCheckNeverFires`) and the division goes on with the wrong
  power of ten. `QuoRemHoldsIff` and `DivRoundHoldsIff` say for which exponents and precisions the documented
  contracts hold.
- `RoundCash` with the interval 15 is documented as rounding to ten cents with the tie going down. Its branch
  uses `^`, which in Go is an exclusive or, and lowers every multiple of five in the last digit.
  `RoundCash15Iff` says exactly when the result is right. On amounts in cents it is wrong for every multiple of
  ten: 3.40 becomes 3.30 (`RoundCash15TakesTen`).
- A lock is described as held until `Unlock`. The counter of the lock goes down before it is released, so a
  Clean in between lets another session lock the same key; `OverlapAfterDecrement` gives such runs and
  `OverlapOnlyAfterDecrement` shows that there are no others.
- `NewFromString` takes what one expects of a decimal, and also a sign that follows a leading point, which it
  counts as a digit: `.-5` is -0.05 (`SignAfterPoint`). A point with zeros only is refused (`PointZerosRejected`).
  `DecimalNumeral.AcceptsExactly` characterises what it takes, `NumeralMeaning` what that means.
- `UnmarshalText` lists three forms. It also takes an opening brace without the closing one, and on one family
  of 32-byte texts it ends in an index panic rather than an error; `AcceptsExactly` and `PanicsExactly`
  characterise both.

## Model

| member | source | states |
|---|---|---|
| TokenBucket.LevelAtMostCredit | pkg/wkhttp/ratelimit.go:49-58 | the level of the ideal bucket never exceeds capacity plus refill since any earlier request, minus the requests admitted since |
| TokenBucket.LevelAttained | pkg/wkhttp/ratelimit.go:49-58 | a level below capacity is exactly that credit for some admitted request |
| TokenBucket.FilledIsLevel | pkg/wkhttp/ratelimit.go:40-72 | on a key that does not expire, not writing on denial loses nothing: over any nondecreasing run the script finds the level of a bucket that is updated on every request |
| TokenBucket.DeniedIffOverBudget | pkg/wkhttp/ratelimit.go:49-67 | on a key that does not expire, a request is denied if and only if some earlier admitted request starts a window that one more admission would put above burst + rate * length |
| TokenBucket.WindowBound | pkg/wkhttp/ratelimit.go:49-67 | on a key that does not expire, every window of a nondecreasing run admits at most burst + rate * length |
| TokenBucket.BucketConforms | pkg/wkhttp/ratelimit.go:49-67 | the decisions of the bucket meet the policy it is compared with |
| TokenBucket.GreedyOptimal | pkg/wkhttp/ratelimit.go:49-67 | on a key that does not expire, at every point of the run no policy that keeps all windows within budget has admitted more requests |
| RateLimiter.LeastWaitIsExact | pkg/wkhttp/ratelimit.go:49-60 | on a stored key that does not expire, after a denial a lone retry w seconds later is admitted if and only if w is at least the least wait, wherever the caller's clock stands |
| RateLimiter.RetryHint | pkg/wkhttp/ratelimit.go:60-60 | on a stored key that does not expire: the hint is at least 1 and at most the least wait; a retry after it is admitted if and only if the time by which the clock is behind the stored time is at most what rounding up has added to the hint, which includes every clock that is not behind |
| RateLimiter.RemainingIsExact | pkg/wkhttp/ratelimit.go:49-74 | remaining is the number of further requests that the key admits at the same moment, after an admission or a denial |
| KeyExpiry.DeniedIsLive | pkg/wkhttp/ratelimit.go:43-67 | only a live key is denied, and the denial leaves it as it was |
| KeyExpiry.RetryAdmittedIff | pkg/wkhttp/ratelimit.go:40-74 | whatever the clocks show, a lone retry w seconds after a denial is admitted if and only if the key has expired by then or w is at least the least wait |
| KeyExpiry.HintAdmittedIff | pkg/wkhttp/ratelimit.go:40-74 | a retry after the hint is admitted if and only if the key has expired by then or the time by which the clock was behind fits into what rounding up has added |
| RateLimiter.RetryHintTooShort | pkg/wkhttp/ratelimit.go:49-60 | an input on which the retry after the hint is refused |
| RateLimiter.TokensAccounted | pkg/wkhttp/ratelimit.go:49-72 | for arbitrary clocks, on a key that does not expire: stored tokens stay in [0, burst], and tokens stored, still to be credited and handed out never exceed burst + rate * (sum of the upward moves) |
| RateLimiter.AdmittedUnderAnyClock | pkg/wkhttp/ratelimit.go:49-72 | for arbitrary clocks, on a key that does not expire, the number of admissions is at most burst + rate * (sum of the upward moves) |
| KeyExpiry.AdmittedWithExpiry | pkg/wkhttp/ratelimit.go:40-72 | for arbitrary clocks of the callers and the store, the number of admissions is at most burst * (1 + number of requests that found the key expired) + rate * (sum of the upward moves) |
| RateLimiter.ExpiredWasFull | pkg/wkhttp/ratelimit.go:40-41 | a key that has expired would have been full again, if the store's clock ran ahead by no more than the tolerance, ttl - burst/rate |
| RateLimiter.RefillTolerated | pkg/wkhttp/ratelimit.go:40-41 | that tolerance is at least burst/rate, a whole refill |
| KeyExpiry.TtlIsLeast | pkg/wkhttp/ratelimit.go:40-41 | the time to live is the least whole number of seconds, at least one, in which the key could be filled twice |
| KeyExpiry.RefusedConfigurations | pkg/wkhttp/ratelimit.go:38-67 | without a rate everything is denied and nothing stored; without a capacity an absent key is denied and stored so that it can expire |
| RateLimiter.LazyEqualsSimple | pkg/wkhttp/ratelimit.go:40-74 | skipped writes and expiry are invisible: allowed, remaining and retry_after are those of a bucket that writes every time and never expires, as long as the callers' clock does not go back and the store's clock gains at most ttl - burst/rate on it between any two requests |
| KeyExpiry.ExpiryInvisibleIff | pkg/wkhttp/ratelimit.go:40-74 | for every drift: all answers of all runs with nondecreasing times in which the store's clock gains at most that drift are those of the simple bucket if and only if the drift is at most ttl - burst/rate |
| KeyExpiry.AdmitsLikeBucket | pkg/wkhttp/ratelimit.go:40-74 | within that drift the limiter with expiring keys admits exactly what the bucket without expiry admits |
| KeyExpiry.ExpiringDeniedIff | pkg/wkhttp/ratelimit.go:40-74 | within that drift it denies a request if and only if one more admission would overfill a window from some earlier admitted request |
| KeyExpiry.ExpiringWindowBound | pkg/wkhttp/ratelimit.go:40-74 | and every window admits at most burst + rate * length |
| KeyExpiry.ExpiringGreedyOptimal | pkg/wkhttp/ratelimit.go:40-74 | and no policy that keeps all windows within budget has admitted more at any point of the run |
| KeyedLimiter.StoredPerKey | pkg/wkhttp/ratelimit.go:143-146 | in a store of many keys a key's entry depends on that key's requests alone |
| KeyedLimiter.AnsweredPerKey | pkg/wkhttp/ratelimit.go:143-146 | so does the answer to every call |
| KeyedLimiter.ReplyInRange | pkg/wkhttp/ratelimit.go:158-169 | remaining is in [0, burst] before clamping, retry_after is 0 when allowed and at least 1 when denied, and stored buckets stay in range |
| KeyedLimiter.WarningsAreSpaced | pkg/wkhttp/ratelimit.go:95-106 | whatever the interleaving of loads and swaps, two warnings are at least 30 seconds apart |
| KeyedLimiter.DueAttemptWarns | pkg/wkhttp/ratelimit.go:95-106 | an attempt warns if and only if the time it loaded is still the recorded one and at least 30 seconds old; it then records its own time, and nothing else changes that time |
| KeyedLimiter.UndisturbedAttempt | pkg/wkhttp/ratelimit.go:95-106 | so a call that nothing comes between warns exactly when the last warning is 30 seconds old |
| KeyedLimiter.Limiter.RunScript | pkg/wkhttp/ratelimit.go:31-75 | the step by step script changes the store and answers as the script's specification does |
| KeyedLimiter.Limiter.Allow | pkg/wkhttp/ratelimit.go:143-170 | a faulty call is let through with the full burst; otherwise the answer is the script's; no other key changes |
| KeyedLimiter.Limiter.WarnIfDue | pkg/wkhttp/ratelimit.go:95-106 | warns if and only if the loaded time is old enough and still current, and then records the time |
| KeyLockMachine.StepKeepsInv | pkg/keylock/keylock.go:31-63 | every step of Lock, Unlock and Clean keeps: counter = sessions between add and done, a counted session's lock is mapped, a lock is held by its one owner |
| KeyLockMachine.MutualExclusion | pkg/keylock/keylock.go:31-63 | in every interleaving of any number of sessions and sweeps, at most one session is between the return of Lock(k) and the decrement of the counter in Unlock(k) |
| KeyLockMachine.OverlapOnlyAfterDecrement | pkg/keylock/keylock.go:44-53 | of two sessions that own locks of one key at least one is between that decrement and its release, and the locks are different ones |
| KeyLockMachine.OverlapAfterDecrement | pkg/keylock/keylock.go:44-63 | for any key and sessions there is a run in which two sessions own locks of it, one having decremented the counter before a Clean |
| KeyLockMachine.SomeoneMoves | pkg/keylock/keylock.go:31-63 | no deadlock among sessions, which never wait for another key while they hold one: in every reachable state with a session under way, some session under way can take a step |
| KeyLockMachine.UnlockFindsItsLock | pkg/keylock/keylock.go:44-53 | Unlock always finds an entry, and it is the very lock its Lock took; no unlocked mutex is unlocked |
| KeyLockMachine.RemovedLockHasNoWaiters | pkg/keylock/keylock.go:55-63 | a lock removed while still locked has no one waiting for it or about to |
| KeyLockMachine.BlockedOnlyBySameKey | pkg/keylock/keylock.go:31-42 | a session that has to wait waits for another session of the same key |
| KeyLockSweep.CleanRemovesZeroed | pkg/keylock/keylock.go:55-63 | whatever other sessions do meanwhile, a Clean removes exactly the entries whose counter it loads as zero |
| KeyLockSweep.CleanCollects | pkg/keylock/keylock.go:55-63 | every entry whose counter is zero when the Clean starts is among them, however busy the other keys are |
| KeyLockSweep.CleanEmptiesMap | pkg/keylock/keylock.go:55-63 | a Clean that runs while every Lock has been matched by its Unlock empties the map, in whatever order it visits the entries |
| KeyLockSweep.CleanEmptiesIdleMap | pkg/keylock/keylock.go:55-63 | in that situation such a Clean can run to its end |
| KeyLockObject.KeyLock.LockLookup | pkg/keylock/keylock.go:31-37 | finds or makes the inner lock of the key; is the machine step of that name |
| KeyLockObject.KeyLock.LockAcquire | pkg/keylock/keylock.go:38-42 | takes the inner mutex when it is free; is the machine step of that name |
| KeyLockObject.KeyLock.UnlockDecrement | pkg/keylock/keylock.go:49-52 | the counter goes down before the inner mutex is released; is the machine step of that name |
| KeyLockObject.KeyLock.UnlockRelease | pkg/keylock/keylock.go:49-52 | the mutex released is locked; is the machine step of that name |
| KeyLockObject.KeyLock.CleanDecide | pkg/keylock/keylock.go:55-63 | removes the entry if the count loaded before was zero; is the machine step of that name |
| IntegerMath.HalfAwayUnique | pkg/util/decimal.go:447-469 | rounding to nearest, ties away from zero, has one answer |
| Decimals.CmpIsOrder | pkg/util/decimal.go:499-512 | Cmp is the order of the denoted numbers, whatever the exponents |
| Decimals.AddSubExact | pkg/util/decimal.go:325-348 | sums and differences are exact |
| Decimals.NegExact | pkg/util/decimal.go:351-357 | negation is exact |
| Decimals.MulExact | pkg/util/decimal.go:361-380 | the product is exact, and Mul panics if and only if the exponent leaves int32 |
| Decimals.OverflowCheckNeverFires | pkg/util/decimal.go:405-413 | QuoRem and DivRound panic only on a zero divisor: the exponent difference is narrowed to an int32 before it is checked against that range |
| Decimals.QuoRemContract | pkg/util/decimal.go:397-444 | where the exponent difference and the remainder's exponent fit into int32: d = d2 * q + r with q a multiple of 10^-precision, r below d2 * 10^-precision in size and of d's sign |
| DecimalOverflow.QuoRemHoldsIff | pkg/util/decimal.go:403-440 | for int32 exponents and precision, that contract holds for all coefficients if and only if -precision, the exponent difference and, when that is not negative, the remainder's exponent are int32s |
| DecimalRounding.DivRoundNearest | pkg/util/decimal.go:447-469 | where the exponents fit: DivRound is the multiple of 10^-precision nearest to d / d2, ties away from zero, for all signs and precisions |
| DecimalPowNegative.DivRoundNeg | pkg/util/decimal.go:447-469 | DivRound of the negated dividend is the negated quotient |
| DecimalOverflow.DivRoundHoldsIff | pkg/util/decimal.go:447-469 | that holds for all coefficients if and only if -precision, the exponent difference and, when that is negative, the exponent of the comparison are int32s; the remainder's own exponent may wrap around |
| DecimalRounding.RoundNearest | pkg/util/decimal.go:665-684 | for every int32 number of places the coefficient of Round is that of the nearest multiple of 10^-places, ties away from zero; the exponent is -places as an int32 |
| DecimalRounding.RoundHoldsIff | pkg/util/decimal.go:665-684 | Round is that multiple if and only if -places is an int32, that is for all places but -2^31 |
| DecimalRounding.RoundUnique | pkg/util/decimal.go:665-684 | and it is then the only decimal with that exponent which is |
| DecimalRounding.RoundIsDivisionByOne | pkg/util/decimal.go:665-690 | Round and division by one, computed differently, agree |
| DecimalRounding.RoundBankNearest | pkg/util/decimal.go:701-716 | for all places but -2^31, RoundBank is the nearest multiple of 10^-places with an even coefficient on ties |
| DecimalRounding.RoundBankHoldsIff | pkg/util/decimal.go:701-716 | and for those only |
| DecimalRounding.RoundBankUnique | pkg/util/decimal.go:701-716 | and it is the only decimal with that exponent which is |
| DecimalRounding.BankDiffersOnOddTies | pkg/util/decimal.go:701-716 | the two roundings differ if and only if d is halfway and Round's coefficient is odd |
| DecimalRemainder.TrueModContract | pkg/util/decimal.go:472-475 | the textbook remainder used for comparison: d's sign, below d2 in size, d minus a whole multiple of d2 |
| DecimalRemainder.ModBounds | pkg/util/decimal.go:472-475 | d - Mod(d, d2) is a whole multiple of d2; on d's side Mod is below abs(d2), on the other at most half of abs(d2) * 10^-16 |
| DecimalRemainder.ModExactIff | pkg/util/decimal.go:472-475 | Mod is the textbook remainder if and only if that remainder is more than half of abs(d2) * 10^-16 short of abs(d2) |
| DecimalRemainder.ModCanBeNegative | pkg/util/decimal.go:472-475 | 0.99999999999999999 mod 1 is negative |
| DecimalCash.RoundCashNearest | pkg/util/decimal.go:729-764 | RoundCash is the multiple of the interval nearest to d, ties away from zero; for the interval 15 it is the multiple of ten nearest to the number its branch has lowered |
| DecimalCash.RoundCashPanics | pkg/util/decimal.go:729-764 | RoundCash panics on exactly the intervals other than 5, 10, 15, 25, 50 and 100 |
| DecimalCash.LoweredIs | pkg/util/decimal.go:736-749 | the branch takes 10 xor (number of digits) units of the last digit off exactly when there is a fraction and the coefficient is a multiple of five |
| DecimalCash.RoundCash15Iff | pkg/util/decimal.go:724-764 | the interval 15 gives the nearest ten hundredths, tie down, if and only if its guard does not apply or what it takes off is below the distance to the least number that rounds there (with the two boundary cases) |
| DecimalCash.RoundCash15OnHundredths | pkg/util/decimal.go:724-764 | on amounts in hundredths that is if and only if the amount is not a multiple of ten |
| DecimalCash.RoundCash15TakesTen | pkg/util/decimal.go:736-749 | such a multiple of ten loses ten |
| DecimalRemainder.FloorCeilExact | pkg/util/decimal.go:767-805 | Floor and Ceil are the floor and the ceiling of the denoted number |
| DecimalRemainder.TruncateCuts | pkg/util/decimal.go:811-817 | Truncate at a nonnegative precision that gives up digits is the multiple of 10^-precision next to d toward zero; otherwise d is unchanged |
| DecimalRemainder.IntPartCuts | pkg/util/decimal.go:572-575 | IntPart is the number without its fraction, as an int64 |
| DecimalPow.HalvingShrinks | pkg/util/decimal.go:478-491 | a rounded half is smaller as long as the integer part is not zero, so Pow terminates for every exponent, negative and fractional ones included |
| DecimalPow.HalfFits | pkg/util/decimal.go:478-483 | no exponent that Pow halves makes the division wrap around: with exponent 64 or more the integer part is 0 modulo 2^64 |
| DecimalPow.PowAtLevel | pkg/util/decimal.go:478-491 | at level k of the halving the exponent's integer part is the floor of n / 2^k, in spite of the rounding, and the result there is the exact power |
| DecimalPow.PowExact | pkg/util/decimal.go:478-491 | Pow is exactly d^n, coefficient and exponent, for every whole n in [0, 2^53) however it is represented by an int32 exponent, as long as d's exponent times n is an int32 |
| DecimalPow.PowIsPower | pkg/util/decimal.go:478-491 | the number denoted by the result is that of n-fold multiplication |
| DecimalPowNegative.PowNegative | pkg/util/decimal.go:478-491 | for a whole exponent -n with 0 < n < 2^53, however it is represented: Pow is NegativePower(d, n), in spite of the rounded halves |
| DecimalPowNegative.NegativePowerStep | pkg/util/decimal.go:478-491 | that is 1 for n = 0, the square of the power at n / 2 rounded down when n is even, and when n is odd that square divided by d, rounded to 16 places, as long as the exponents of the division fit |
| DecimalPowNegative.NegativePowerExact | pkg/util/decimal.go:485-490 | it is exactly 1 / d^n whenever every quotient on the way has at most 16 places and the exponents of the divisions fit |
| DecimalPowNegative.NegativePowerDefined | pkg/util/decimal.go:478-491 | there is such a power if and only if d is not zero and no square on the way leaves int32, which n alone decides; its places are 16 times the largest power of two that divides n |
| DecimalPowNegative.NoPowerOfZero | pkg/util/decimal.go:490-490 | zero has no such power for n > 0: the division panics |
| DecimalPowNegative.PowOfFraction | pkg/util/decimal.go:478-483 | an exponent with integer part 0 gives 1, negative ones included |
| DecimalPowNegative.HalfIsPower | pkg/util/decimal.go:478-491 | 2 to the power -1 is 0.5 |
| DecimalText.TrimTrailingZeros | pkg/util/decimal.go:968-977 | the backward loop strips exactly the trailing zeros |
| DecimalText.StringOf | pkg/util/decimal.go:949-992 | the printer yields the specified text |
| DecimalText.ParseText | pkg/util/decimal.go:105-154 | parsing a printed decimal succeeds and gives a decimal of the same number, trimmed or not |
| DecimalText.TextAt | pkg/util/decimal.go:949-992 | the text does not depend on how many trailing zeros the coefficient has |
| DecimalText.TextIsCanonical | pkg/util/decimal.go:949-992 | two texts are equal if and only if Cmp is zero |
| DecimalNumeral.TextIsPlain | pkg/util/decimal.go:949-992 | the printed form is a numeral without exponent: a minus exactly for negative numbers, no needless leading zero, and exactly -exp places or, trimmed, those up to the last digit that is not zero |
| DecimalNumeral.ParseWritten | pkg/util/decimal.go:105-154 | every numeral (sign, digits, perhaps a point and more digits, perhaps an exponent; the sign may follow a leading point) whose exponents are int32s is accepted, with its value |
| DecimalNumeral.AcceptsExactly | pkg/util/decimal.go:105-154 | the parser accepts a text if and only if it is such a numeral |
| DecimalNumeral.ErrorsExactly | pkg/util/decimal.go:105-154 | which error a refused text gets: a bad exponent, else a second point, else no integer without the point, else an exponent that does not fit |
| DecimalNumeral.NumeralMeaning | pkg/util/decimal.go:105-154 | the number is that of all its digits, shifted by its exponent and its places, whatever trailing zeros the fraction has |
| DecimalNumeral.SignAfterPoint | pkg/util/decimal.go:124-143 | .-5 is accepted as -0.05 |
| DecimalNumeral.PointZerosRejected | pkg/util/decimal.go:129-143 | a point followed by zeros only is not accepted |
| DecimalFloat.NewFromFloatWithExponent | pkg/util/decimal.go:194-273 | the nearest multiple of 10^exp, ties away from zero, or the exact number at a larger exponent, that of its last binary digit or 0; the normalising loop terminates; only NaN and infinities panic |
| DecimalFloat.ScaledQuotient | pkg/util/decimal.go:233-262 | scaling by powers of two and five and adding half the divisor rounds the exact quotient |
| DecimalFloat.NewFromFloat | pkg/util/decimal.go:183-185 | the decimal denotes the float exactly, subnormals included |
| DecimalObject.Round | pkg/util/decimal.go:665-690 | overwriting the coefficient in place changes no existing decimal or shared constant and yields the rounded number |
| DecimalObject.RoundBank | pkg/util/decimal.go:701-716 | likewise, although it overwrites the coefficient of the Round result |
| DecimalObject.QuoRem | pkg/util/decimal.go:403-444 | the integer computation on fresh objects returns quotient and remainder of the specification |
| DecimalObject.DivRound | pkg/util/decimal.go:447-469 | likewise for the rounded quotient |
| DecimalObject.Floor | pkg/util/decimal.go:767-781 | returns the floor, possibly sharing the operand's integer |
| DecimalObject.Execute | pkg/util/decimal.go:61-67 | any program of negation, absolute value, arithmetic, division with remainder, powers, rounding, comparison and printing over shared, mutable integers leaves every register as it was and computes and prints what it does on plain values |
| DecimalObject.MeaningExponents | pkg/util/decimal.go:71-80 | every one of those operations turns int32 exponents into int32 exponents |
| DecimalObject.Pow | pkg/util/decimal.go:478-491 | the recursion on objects returns the specified power |
| DecimalObject.RoundCash | pkg/util/decimal.go:729-764 | cash rounding through shared constants, and a copy that shares the receiver's integer, returns the specified number |
| SequenceMachine.StepKeepsInv | config/seq.go:22-71 | every call, failed write or crash keeps the row at or above what was issued, and row and memory within the blocks given up |
| SequenceMachine.StrictlyIncreasing | config/seq.go:22-71 | over any run of calls, crashes, restarts and writes that fail with or without effect, the numbers of a flag strictly increase |
| SequenceMachine.RowCoversIssued | config/seq.go:57-70 | at every later moment the stored min_seq is at least every number issued |
| SequenceMachine.SkipsAtMostLostBlocks | config/seq.go:34-67 | between two consecutive numbers at most 1000 are skipped per restart, plus once for a first write that only seems to fail; none while the process lives |
| SequenceMachine.LostInitOnlyFirst | config/seq.go:34-43 | that first write can cost a block only once, and only before anything is issued |
| SequenceMachine.NumberUnlessFailed | config/seq.go:22-71 | in every state a call returns a number if and only if none of the database actions it needs fails, and each error means that its own action failed; the number is the one after the last in memory, after the stored one, or after the first |
| SequenceMachine.StockNeedsNoDatabase | config/seq.go:57-70 | the numbers left in a block are handed out one after the other whatever the database does |
| SequenceMachine.BlockIsReserved | config/seq.go:34-67 | a call that succeeds on an empty stock leaves 999 numbers in stock and the row at the end of their block |
| SequenceObject.Context.GenSeq | config/seq.go:22-71 | the method updates map, counter and row as the step function says, and touches no other flag |
| SequenceObject.Context.Restart | config/seq.go:10-10 | a restart forgets the counters and keeps the rows |
| QueueMachine.StepKeepsInv | pkg/pool/queue.go:25-81 | every critical section keeps wakeups sufficient, order, and no sleeper after Close |
| QueueMachine.NoLostWakeup | pkg/pool/queue.go:25-64 | while the queue is open and some Pop sleeps, the buffer is no longer than the number of notified consumers that have not resumed |
| QueueMachine.CloseReleasesAll | pkg/pool/queue.go:33-64 | after Close no thread sleeps, and every woken or arriving Pop returns without a value |
| QueueMachine.FirstInFirstOut | pkg/pool/queue.go:25-81 | accepted items = removed items in order, then the buffer, in every state |
| QueueMachine.PushAccepts | pkg/pool/queue.go:25-40 | a queue accepts exactly what is pushed while it is open; a closed one accepts nothing and stays closed |
| QueueMachine.AnswerIsTaken | pkg/pool/queue.go:43-81 | Pop and TryPop answer with an item exactly when they take one out, and it is the first of the buffer; when they answer with none or go to sleep the buffer stays as it was |
| QueueMachine.AnswersInOrder | pkg/pool/queue.go:25-81 | over every run, the items answered and then the buffer are those pushed while the queue was open, in that order |
| QueueMachine.NotifiedDrain | pkg/pool/queue.go:43-64 | in whatever order the notified threads resume, afterwards an open queue has no sleeper or no item |
| QueueMachine.NotifiedTakeItems | pkg/pool/queue.go:43-64 | those threads take as many items as there are, up to their number |
| QueueObject.Queue.Push | pkg/pool/queue.go:25-31 | appends and wakes one waiter, or does nothing after Close; is the machine step |
| QueueObject.Queue.Close | pkg/pool/queue.go:33-40 | closes once and wakes all waiters; is the machine step |
| QueueObject.Queue.PopSection | pkg/pool/queue.go:43-63 | one pass of the loop: wait, give up on a closed queue, or take the first item |
| QueueObject.Queue.TryPop | pkg/pool/queue.go:66-81 | takes the first item if there is one; ok is false only on an open empty queue |
| UuidGenerator.VersionMask | pkg/util/uuid.go:214-216 | the arithmetic form of SetVersion is the bit operation |
| UuidGenerator.VariantMask | pkg/util/uuid.go:219-221 | the arithmetic form of SetVariant is the bit operation |
| UuidGenerator.BigEndianInjective | pkg/util/uuid.go:401-414 | two big-endian fields are equal if and only if the numbers agree modulo the field size |
| UuidGenerator.BigEndianDigits | pkg/util/uuid.go:401-435 | byte k of an n-byte field is digit n - 1 - k of the number to base 256 |
| UuidGenerator.V1Layout | pkg/util/uuid.go:401-417 | every byte of a version 1 UUID as a digit of the time or the clock sequence, a version or variant mark, or a byte of the address |
| UuidGenerator.V2Layout | pkg/util/uuid.go:420-443 | likewise for version 2: the POSIX id of the domain in the first four bytes, the domain in the tenth |
| UuidGenerator.V1Equal | pkg/util/uuid.go:401-417 | two version 1 UUIDs of one node are equal if and only if the low 60 bits of the times and the low 14 bits of the clock sequences are |
| UuidGenerator.SequenceCountsBumps | pkg/util/uuid.go:383-398 | the clock sequence counts repeated and set-back clock readings modulo 2^16 |
| UuidGenerator.TickIsFair | pkg/util/uuid.go:383-398 | a reading later than the last leaves the clock sequence as it was; any other one adds exactly one, modulo 2^16 |
| UuidGenerator.V1CollideIff | pkg/util/uuid.go:383-417 | two NewV1 results of a run coincide if and only if the times agree in 60 bits and the bumps between are a multiple of 2^14 |
| UuidGenerator.CollisionNeedsManyBumps | pkg/util/uuid.go:383-417 | with times below 2^60 a collision needs equal times and a positive multiple of 2^14 bumps |
| UuidGenerator.VersionsDiffer | pkg/util/uuid.go:401-443 | a version 1 and a version 2 UUID are never equal |
| UuidGenerator.RunIsDistinct | pkg/util/uuid.go:383-443 | a run with fewer than 2^14 bumps, NewV2 calls interleaved or not, never repeats a version 1 UUID |
| UuidGenerator.Generator.GetStorage | pkg/util/uuid.go:383-398 | updates clock and sequence as the step function says |
| UuidGenerator.Generator.NewV1 | pkg/util/uuid.go:401-417 | fills the array with exactly the version 1 layout |
| UuidGenerator.Generator.NewV2 | pkg/util/uuid.go:420-443 | fills the array with exactly the version 2 layout |
| UuidText.AcceptsExactly | pkg/util/uuid.go:235-283 | parsing succeeds on exactly the 8-4-4-4-12 layout, plain, after the urn prefix, or after an opening brace with an optional closing one, and yields the bytes shown |
| UuidText.FailsExactly | pkg/util/uuid.go:235-283 | a refused text is too short or has a first group that is not there; that group alone decides the error, and the bytes written are exactly those shown before it, or before its first bad pair of digits |
| UuidText.PanicsExactly | pkg/util/uuid.go:235-258 | parsing panics on exactly the 32-byte texts made of the urn prefix and the first 23 characters of a layout |
| UuidText.TruncatedUrnPanics | pkg/util/uuid.go:250-258 | such a text exists for every UUID |
| UuidText.TextIsLayout | pkg/util/uuid.go:197-211 | the printed form has the layout and shows the bytes |
| UuidText.TextAt | pkg/util/uuid.go:197-211 | byte k is printed as its two lower-case digits at its place in the layout |
| UuidText.ParseText | pkg/util/uuid.go:230-283 | parsing undoes printing for every 16-byte value |
| UuidText.ParseUrn | pkg/util/uuid.go:230-283 | also with the urn prefix |
| UuidText.ParseBraced | pkg/util/uuid.go:230-283 | also in braces, the closing one being optional |
| UuidText.PrintParsed | pkg/util/uuid.go:197-211 | printing undoes parsing up to prefix, braces and the case of the digits |
| UuidText.String | pkg/util/uuid.go:197-211 | the buffer filled piece by piece is the printed form |
| UuidText.UnmarshalText | pkg/util/uuid.go:235-283 | the loop over the groups ends as specified and overwrites exactly the specified bytes, on failure too |
| WaitMachine.StepKeepsInv | pkg/wait/wait.go:46-77 | every section keeps: entries sit in their shard and lead to unclaimed channels, a claimed channel is closed or its Trigger is at work on it |
| WaitMachine.SendNeverBlocks | pkg/wait/wait.go:59-69 | in every interleaving a Trigger's send finds an open channel with room and its close an open one, even if the id was registered again |
| WaitMachine.OneValuePerChannel | pkg/wait/wait.go:59-69 | a channel carries at most one value, that of the Trigger which removed it, and is closed only after the send |
| WaitMachine.ChannelsAreDistinct | pkg/wait/wait.go:46-57 | two ids never share a channel |
| WaitMachine.ShardsRefineOneMap | pkg/wait/wait.go:26-77 | every step of the 64 shards is the same step, with the same answer, of one map with unguarded channels |
| WaitMachine.WaitsForTrigger | pkg/wait/wait.go:46-69 | without a Trigger of the id a registration stays and nothing is sent, whatever else happens |
| WaitMachine.FirstTriggerDelivers | pkg/wait/wait.go:46-69 | the first Trigger after a registration, and no later one, delivers to it, and once its thread is done the value is sent and the channel closed |
| WaitObject.List.Register | pkg/wait/wait.go:46-57 | files a new channel, or panics on a duplicate id without changing any entry; is the machine step |
| WaitObject.List.TriggerRemove | pkg/wait/wait.go:59-64 | takes the channel out of the shard, or finds none; is the machine step |
| WaitObject.List.TriggerSend | pkg/wait/wait.go:65-66 | puts the value into an empty, open channel; is the machine step |
| WaitObject.List.TriggerClose | pkg/wait/wait.go:67-67 | closes an open channel; is the machine step |
| WaitObject.List.Trigger | pkg/wait/wait.go:59-69 | uninterrupted: afterwards the id is free and its channel holds the value and is closed |
| WaitObject.List.IsRegistered | pkg/wait/wait.go:71-77 | true if and only if the union of the shards has the id |

## Left out

- Redis, MySQL, HTTP, gin, gRPC, logging, tracing and metrics: I/O. The limiter's store is a map with a deadline per key; the sequence table is one integer per flag.
- The limiter's script computes with Lua doubles; the model uses real numbers.
- The limiter's headers, client address selection and middleware: each settled by one branch or one loop.
- KeyedLimiter.Limiter.Allow: does not model the argument of the Redis call or the log text; a fault is a parameter that says whether the script ran.
- Go's mutexes, condition variables, channels, maps and big integers are taken as atomic locks, wait sets, one-place buffers, maps and integers.
- KeyLockMachine.MutualExclusion: a session is one Lock and one Unlock of the same key, so an Unlock without a Lock is not modelled; the source demands this of its callers.
- The keylock's clean loop on a timer: Clean may start at any moment in the model.
- DecimalOverflow.QuoRemHoldsIff: outside the exponents where the contract holds for all coefficients, it is not determined for which coefficients it happens to hold. The same holds for DivRoundHoldsIff.
- DecimalFloat.NewFromFloatWithExponent: the difference of the binary and the decimal exponent is not wrapped; it leaves int32 only for decimal exponents near 2^31, where the program would need a power of five of that size.
- DecimalPow.PowExact: fractional exponents with an integer part other than 0 are only proved to terminate; their results depend on the rounded halves.
- DivisionPrecision is a variable in the source and fixed at its default 16 here.
- DecimalText.ParseText: the error texts of the parser are not modelled, and its two messages about a bad exponent are one error.
- Conversion of decimals to `big.Rat` and `float64`, their gob, JSON and database encodings, Min, Max, Sum and Avg: library encodings or a fold over Cmp and Add.
- SequenceMachine.StrictlyIncreasing: one live process at a time, and numbers do not wrap at 64 bits. Two processes that share a row are not covered, since each keeps its own counters.
- The queue's Wait, which polls the length until the queue drains.
- UUIDs of versions 3, 4 and 5 (hashes and random bytes), their binary and database forms, and the choice of the hardware address and initial clock sequence, which are parameters.
- UuidText.UnmarshalText: a text is a sequence of characters rather than bytes, and error texts are not modelled.
- UuidGenerator.RunIsDistinct: times are unbounded natural numbers, where the program counts in 64 bits.
- WaitObject.List.Register: a duplicate id is an outcome of the call; what a caller does with the panic is not modelled.
- Base62, padding, name conversion, cryptography, configuration loading, message senders and generated code: simple, or resting on other libraries.
