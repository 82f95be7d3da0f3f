# hzlibc: a verified model of its hard parts

hzlibc is a C library with its own dynamic linker. This project models the parts of it whose correctness ranges over
every input or every interleaving, and proves what they promise:

- the futex synchronisation (`Mutex`, `thread_once`, barriers) and thread-specific keys, as transition systems over any
  number of threads with one step per atomic access or futex call;
- the dynamic linker: the two ELF hash tables against a linear scan, RELR decoding, relocating libc twice, symbol search
  over a possibly cyclic dependency graph, and the static TLS layout;
- soft-float binary128: addition, and the conversions from and to binary64, as IEEE 754 rounding of the exact value;
- 64-bit division for targets without a divide instruction;
- `gmtime_r` and `timegm`, as inverses of each other and against the closed form of POSIX;
- the UTF-8 encoder, decoder and their string drivers.

`dafny verify dfyconfig.toml` checks the whole project. Code that works by changing things step by step is modelled by
methods with loops, arrays and classes, each proved against a specification function or relation; the laws are lemmas
about those specifications. Many proofs start with a `hide` statement: it takes definitions that the proof does not need
out of the verifier's sight and keeps each proof small.

## How the parts are modelled

- **Protocols** (`MutexProtocol`, `OnceProtocol`, `BarrierProtocol`, `ThreadKeys`). A state holds the shared words and one
  program counter per thread. A run is any sequence of enabled moves from an initial state, under sequential consistency.
  `sys_futex_wait` parks if the word still has the expected value, and may return early; weak compare-exchanges may fail
  without cause. Each module proves one inductive invariant (`StepInv`, `RunInv`) and reads the theorems off it. What a
  call does when no other thread interferes is stated besides, with its exact result and final state.
- **Floats** (`Ieee754`, `StickyBits`, `Binary128`, `QuadAdd`, `QuadConvert`). Encodings are bounded naturals. A finite value
  is an integer multiple of binary128's smallest subnormal, so sums are exact. `RoundsToNearestEven` is stated by the two
  neighbouring encodings; `NearestIsNearest` and `NearestUnique` show that it is the nearest value and unique.
  `ValueByBias` and `SameOne` tie the unit to the exponent bias of each format.
- **Linker** (`ElfHash`, `Relr`, `Relocate`, `SymbolLookup`, `TlsLayout`). Tables are values; the words the loops change are
  fields of classes. Addresses are taken modulo 2^64. An `__ensure` or `panic` is a failed result.
- **Calendar, UTF-8, division**. C's truncating `/` and `%` and the 64-bit wrap-around are written out.

## What the code does not meet

Each of these is stated by the member named, where it applies with the exact condition under which the code does meet the
property.

- A thread that arrives at a barrier between the sequence increment and the reset of `waiting` loses its arrival, and that
  generation is never released: a step loses an arrival exactly then (`LostExactlyByEarlyArrival`), a run has lost one
  exactly when such an arrival happened (`LostIffEarlyArrival`), and it stays lost (`LostForever`). Two threads can get
  there (`EarlyReentryDeadlocks`), and a barrier where everyone waits has lost one (`StuckMeansLost`).
- Outside round-to-nearest, binary128 addition departs from IEEE 754 when a sum that should stay finite overflows
  (`DirectedOverflowDeparts`) and for the sign of an exact zero when rounding downward (`DownwardZeroDeparts`); nowhere
  else (`SumMeetsStandardIff`).
- Narrowing a widened double gives the double back exactly when it is not a signalling NaN (`NarrowOfWiden`).
- `timegm` leaves a day of the month 0 as it is (`DayZeroStays`), and `gmtime_r` refuses what `timegm` returns for dates past
  its limit, which is 30 November 2999 (`YearThreeThousand`); otherwise they agree (`NormalisedIff`). The result of `timegm`
  is the POSIX one exactly for fields that name a day from the epoch on (`PosixClosedForm`, `BeforeEpoch`). `gmtime_r` puts
  the fields in range exactly from the epoch on (`NormalFromEpoch`), yet `timegm` undoes it for negative times too
  (`RoundTrip`).
- `wcrtomb` writes a byte for a negative `wchar_t` (`NegativeWitness`); the string round trip holds exactly without them
  (`RoundTripIff`).
- `wcrtomb` encodes surrogates, which section 3 of RFC 3629 forbids, and `mbrtoc32` decodes them (`ExcludedForms`). What
  `wcrtomb` writes follows the grammar of section 4 exactly when the character is no surrogate, or negative with an ASCII
  low byte (`EncodedRfcIff`); for strings without negative characters, exactly when there is no surrogate
  (`EncodedTextRfcIff`).
- `mbrtoc32` accepts overlong forms and values past 0x10FFFF too (`ExcludedForms`). A sequence it accepts follows the
  grammar exactly when its first two bytes are those of no excluded form and no surrogate (`AcceptedRfcIff`,
  `DecodedRfcIff` for texts), and it encodes back exactly when they are those of no excluded form (`ReencodeIff`,
  `TextReencodeIff`). An overlong NUL ends a string (`OverlongNulEnds`).
- A TLS alignment of 0, which ELF allows, gives offset 0. Startup and every later load lay the blocks out exactly when no
  alignment is 0 where it matters (`StartupInvIff`, `StepInvIff`, `RunInvIff`); with a libc that has no TLS segment the next
  object shares the executable's bytes (`LibcWithoutTls`). The blocks are merely disjoint exactly when, beyond that, each
  load misses the executable's block in such a case (`RunDisjointIff`, `StaticDisjointIff`), which can happen
  (`DisjointOutOfOrder`).
- The TCB is placed on a multiple of 16 only, so the address of a block with a larger alignment is aligned exactly when the
  rounded area happens to end on a multiple of it (`AddressAlignedIff`), which fails for 64 (`OverAlignedBlock`).
- An object loaded at run time gets its TLS image exactly in the loading thread and in threads created later
  (`ImageWrittenIff`, `OtherThreadMisses`).
- A GNU hash table that hashes nothing reports one symbol, whatever the size of its symbol table
  (`NumSymbols`, `NothingHashed`).
- The lookup policy `IgnoreLocal` behaves like `None` (`IgnoreLocalOrder`); the local object's definition is returned exactly
  when no other searched object and no other binding takes precedence (`IgnoredLocalReturnedIff`, `LoneObjectWins`).

## Model

| member | source | states |
|---|---|---|
| `MutexProtocol.StepInv` | src/internal/mutex.cpp:11-106 | every step of every thread, in lock, trylock and unlock of all three kinds, keeps the invariant tying the state word, the recursion count, the program counters and the history of returns together |
| `MutexProtocol.RunInv` | src/internal/mutex.cpp:11-106 | the invariant holds in every state of every run |
| `MutexProtocol.MutualExclusion` | src/internal/mutex.cpp:11-106 | in every run at most one thread holds the lock, the word's id bits name it, `recursion` is its locks minus unlocks, and a mutex that is not recursive is held once |
| `MutexProtocol.NamedThreadHolds` | src/internal/mutex.cpp:11-106 | a thread named by the word holds the lock, has just taken it or is giving it up |
| `MutexProtocol.NoLostWakeup` | src/internal/mutex.cpp:36-105 | while a thread is parked the word carries FLAG_WAITING or an unlocker is between its exchange and its wake; a free mutex with no wake pending has no sleepers |
| `MutexProtocol.SleeperHasWaker` | src/internal/mutex.cpp:36-105 | behind every sleeper there is another thread, awake: one about to wake everyone, or the owner of a word with the flag set |
| `MutexProtocol.ReturnMeaning` | src/internal/mutex.cpp:11-106 | in every run, success of a lock means ownership, success of an unlock means a lock was held, and EDEADLK, EBUSY and EPERM each occur only in the situation they name |
| `MutexProtocol.PanicIsMisuse` | src/internal/mutex.cpp:22-97 | in every run a thread panics only on a normal mutex, by locking what it owns or unlocking what it does not; the check of `recursion` never fails |
| `MutexProtocol.CallAnswered` | src/internal/mutex.cpp:11-106 | in every run the next return of a thread after it begins a call is of that call, with a result the call can have; until then the thread is busy, and asleep only in a lock |
| `MutexProtocol.FreeMutexTaken` | src/internal/mutex.cpp:11-55 | alone, a lock or trylock of a free mutex returns 0 and leaves it owned once |
| `MutexProtocol.OwnedMutexRelocked` | src/internal/mutex.cpp:23-33 | alone, a lock or trylock by the owner nests, fails with EDEADLK or panics, by kind |
| `MutexProtocol.TakenMutexBlocks` | src/internal/mutex.cpp:35-71 | alone, on the mutex of another thread a trylock gives EBUSY, and a lock sets the waiting flag and sleeps |
| `MutexProtocol.ForeignUnlockRefused` | src/internal/mutex.cpp:77-94 | alone, an unlock by a thread that is not the owner gives EPERM, or panics on a normal mutex |
| `MutexProtocol.OwnerUnlocks` | src/internal/mutex.cpp:96-106 | alone, an unlock by the owner drops one level, and the last one frees the mutex and wakes the sleepers |
| `OnceProtocol.StepInv` | src/internal/thread.cpp:147-184 | every step keeps the invariant: at most one initialising thread, present exactly while the word is RUNNING or QUEUED, and a history in order |
| `OnceProtocol.RunInv` | src/internal/thread.cpp:147-184 | the invariant holds in every state of every run |
| `OnceProtocol.InitialisedOnce` | src/internal/thread.cpp:147-184 | in every run `init_fn` starts at most once and every return comes after it has finished |
| `OnceProtocol.OneInitialiser` | src/internal/thread.cpp:147-184 | in every run no two threads are in `init_fn`, about to call it or about to publish its completion |
| `OnceProtocol.SleeperHasWaker` | src/internal/thread.cpp:161-179 | behind every sleeper there is the initialising thread with the word QUEUED, or a thread about to wake everyone |
| `OnceProtocol.FirstCallInitialises` | src/internal/thread.cpp:147-167 | alone, a call on a fresh word runs `init_fn` once and completes the word |
| `OnceProtocol.LaterCallReturns` | src/internal/thread.cpp:180-182 | alone, a call on a completed word returns and does nothing else |
| `OnceProtocol.CallDuringInitSleeps` | src/internal/thread.cpp:168-179 | alone, a call while `init_fn` runs marks the word QUEUED and sleeps |
| `OnceProtocol.InitialiserWakes` | src/internal/thread.cpp:163-166 | the initialising thread that finds the word QUEUED wakes exactly the sleepers |
| `BarrierProtocol.StepInv` | src/posix/pthread.cpp:439-477 | every step keeps the invariant on generations, arrivals, leaders, the waiting count and wake-ups |
| `BarrierProtocol.RunInv` | src/posix/pthread.cpp:439-477 | the invariant holds in every state of every run |
| `BarrierProtocol.BarrierSafety` | src/posix/pthread.cpp:439-477 | no thread returns from its k-th wait before every participating thread has entered its k-th wait |
| `BarrierProtocol.OneSerialThread` | src/posix/pthread.cpp:458-464 | at most one thread gets the serial return value for each wait |
| `BarrierProtocol.SerialIffLeader` | src/posix/pthread.cpp:457-464 | in every run each generation has one leader, and a return is the serial one exactly when it is that leader's |
| `BarrierProtocol.WaitsCounted` | src/posix/pthread.cpp:439-477 | the waits a thread has begun are those it has returned from and the one it is in |
| `BarrierProtocol.ReturnsNumbered` | src/posix/pthread.cpp:439-477 | the wait a return belongs to is its number among the returns of its thread |
| `BarrierProtocol.BarrierSafetyObserved` | src/posix/pthread.cpp:439-477 | counting moves and returns only: a k-th return comes after every thread has begun its k-th wait |
| `BarrierProtocol.InsideCounts` | src/posix/pthread.cpp:440-449 | in every run `inside` is the number of threads in the barrier |
| `BarrierProtocol.LeaderReleases` | src/posix/pthread.cpp:457-464 | alone, the last thread to arrive advances the sequence, clears the count, wakes every sleeper and returns as the serial thread |
| `BarrierProtocol.ReleasedReturns` | src/posix/pthread.cpp:466-473 | alone, a thread whose generation is over returns |
| `BarrierProtocol.ReleasedSleeperHasWaker` | src/posix/pthread.cpp:459-461 | a thread still parked in a generation that is over has a thread on its way to wake it |
| `BarrierProtocol.LostArrivalIsPermanent` | src/posix/pthread.cpp:450-476 | once an arrival is lost, no step advances the sequence or recovers it |
| `BarrierProtocol.LostForever` | src/posix/pthread.cpp:439-477 | from a lost arrival on, in every run, the sequence stands still and nobody returns from the wait after it |
| `BarrierProtocol.LostExactlyByEarlyArrival` | src/posix/pthread.cpp:450-476 | a step loses an arrival exactly when it arrives while the reset of the count is pending |
| `BarrierProtocol.LostIffEarlyArrival` | src/posix/pthread.cpp:450-476 | in every run an arrival has been lost exactly when some thread arrived while a reset was pending |
| `BarrierProtocol.StuckMeansLost` | src/posix/pthread.cpp:450-476 | in every run, when every thread waits for the current generation, an arrival has been lost |
| `BarrierProtocol.EarlyReentryDeadlocks` | src/posix/pthread.cpp:439-477 | with two threads such a state is reachable |
| `ThreadKeys.KeyStore.Create` | src/internal/thread.cpp:308-323 | takes the first unused slot, with a new generation, or fails exactly when all are used; changes nothing else |
| `ThreadKeys.KeyStore.Delete` | src/internal/thread.cpp:325-339 | frees a used slot, keeping its generation; EINVAL and no change otherwise |
| `ThreadKeys.KeyStore.GetSpecific` | src/internal/thread.cpp:341-356 | forgets a value of an earlier generation before reading; panics on an unused key |
| `ThreadKeys.KeyStore.SetSpecific` | src/internal/thread.cpp:358-373 | stores the value under the current generation; EINVAL and no change on an unused key |
| `ThreadKeys.StepInv` | src/internal/thread.cpp:283-373 | every operation, exit step and destructor call keeps the invariant between slots, generations and the abstract map |
| `ThreadKeys.RunInv` | src/internal/thread.cpp:283-373 | the invariant holds in every state of every run |
| `ThreadKeys.GetReadsOwnIncarnation` | src/internal/thread.cpp:341-356 | in every run a read returns what this thread last stored under the current incarnation of the slot, never an earlier one's value |
| `ThreadKeys.FreshIncarnationIsNull` | src/internal/thread.cpp:308-323 | a newly created key reads as null in every thread, whatever its slot held before |
| `ThreadKeys.DestructorGetsOwnValue` | src/internal/thread.cpp:283-306 | a destructor call gets the non-null value stored under the incarnation it was registered for, with the slot already cleared, even if the key was deleted and its slot reused meanwhile |
| `ThreadKeys.CallsBounded` | src/internal/thread.cpp:283-306 | destructor calls for a slot never outnumber the exit loop's visits to it |
| `ThreadKeys.AtMostFourCalls` | src/internal/thread.cpp:285-286 | at most four destructor calls per slot of an exiting thread |
| `ThreadKeys.NeverStuck` | src/internal/thread.cpp:283-373 | in every run a thread can use its keys until it exits and inside its destructors, and an exiting one has a move until it is done |
| `ThreadKeys.EverySlotVisited` | src/internal/thread.cpp:285-286 | in every run an exiting thread goes past the slots in turn, and an exited one has visited each slot four times |
| `ThreadKeys.VisitCaptures` | src/internal/thread.cpp:287-298 | a visit takes up the destructor exactly when the key is live, the thread has a value under its present incarnation and that one has a destructor |
| `ThreadKeys.DueIsCalled` | src/internal/thread.cpp:287-304 | in every run such a visit leads to the call, with the stored value, whatever other threads do in between |
| `Ieee754.NearestIsNearest` | src/internal/float_gcc.cpp:548-554 | the rounding stated by neighbours is at least as close as any other encoding |
| `Ieee754.NearestUnique` | src/internal/float_gcc.cpp:548-554 | round to nearest, ties to even, has one result |
| `Ieee754.OverflowThreshold` | src/internal/float_gcc.cpp:521-552 | rounding gives infinity exactly from the standard's overflow threshold on |
| `Ieee754.ValueByBias` | src/internal/float_gcc.cpp:187-191 | an encoding stands for its significand times two to its exponent less the format's bias, relative to the encoding of 1 |
| `Binary128.RepClz` | src/internal/float_gcc.cpp:28-47 | the count of leading zeros taken from the upper or lower half is that of the whole word |
| `Binary128.ShiftRightSticky` | src/internal/float_gcc.cpp:526-533 | the shift that ors the lost bits into the lowest one |
| `Binary128.QuietedMeaning` | src/internal/float_gcc.cpp:418-422 | setting the quiet bit keeps a NaN a NaN and all its other bits |
| `QuadAdd.Normalize` | src/internal/float_gcc.cpp:63-67 | a subnormal significand moves its leading bit to the implicit position, the exponent accounting for the shift exactly |
| `QuadAdd.Unpack` | src/internal/float_gcc.cpp:458-480 | exponent and significand of a finite non-zero operand, scaled, are its exact magnitude |
| `QuadAdd.AlignWithSticky` | src/internal/float_gcc.cpp:484-494 | alignment keeps a value that stands for the exact operand, for every distance |
| `QuadAdd.SubtractSignificands` | src/internal/float_gcc.cpp:495-508 | cancellation and renormalisation represent the exact difference |
| `QuadAdd.SumSignificands` | src/internal/float_gcc.cpp:509-520 | addition with carry represents the exact sum |
| `QuadAdd.Denormalize` | src/internal/float_gcc.cpp:526-533 | a result below the normal range still represents the exact value in subnormal units |
| `QuadAdd.RoundAndPack` | src/internal/float_gcc.cpp:522-561 | the packed result is the exact value rounded in the given mode, or infinity on overflow |
| `QuadAdd.AddTf3` | src/internal/float_gcc.cpp:406-565 | for all operands and modes: NaNs are quieted, infinities and their conflict handled, finite sums are the exact sum rounded |
| `QuadAdd.SumMeetsStandardIff` | src/internal/float_gcc.cpp:406-565 | the sum is that of section 4.3 of IEEE 754-2019 exactly outside two named cases of the directed modes |
| `QuadAdd.NearestSumIsIeee` | src/internal/float_gcc.cpp:406-565 | in round-to-nearest every sum of finite operands is the one of section 4.3.1 of IEEE 754-2019 |
| `QuadAdd.NaNSum` | src/internal/float_gcc.cpp:415-430 | the sum is a NaN exactly for a NaN operand or opposite infinities, quiet, with the payload of the first NaN operand |
| `QuadAdd.DirectedOverflowDeparts` | src/internal/float_gcc.cpp:522-524 | the largest number doubled toward zero gives infinity, not the largest number |
| `QuadAdd.DownwardZeroDeparts` | src/internal/float_gcc.cpp:497-499 | the smallest number minus itself, rounding downward, gives +0 |
| `QuadAdd.SumCommutes` | src/internal/float_gcc.cpp:452-457 | addition of numbers and infinities commutes bit for bit |
| `QuadConvert.ExtendDfTf` | src/internal/float_gcc.cpp:133-245 | widening keeps sign and exact value of every finite double, infinities, and NaN payloads |
| `QuadConvert.WidenFields` | src/internal/float_gcc.cpp:195-236 | the same for the fields, by case of the source exponent |
| `QuadConvert.SameOne` | src/internal/float_gcc.cpp:188-205 | both formats encode 1, by their own biases, as the same magnitude |
| `QuadConvert.WidenedFields` | src/internal/float_gcc.cpp:195-205 | the exponent field of a normal double moves from bias 1023 to bias 16383 and its fraction moves up 60 bits; 1 becomes 1 |
| `QuadConvert.TruncTfDf` | src/internal/float_gcc.cpp:1140-1298 | narrowing rounds every finite value to the nearest double, ties to even, including subnormal results and overflow; infinities and NaNs as section 5.4.2 of IEEE 754-2019 asks |
| `QuadConvert.NarrowNormal` | src/internal/float_gcc.cpp:1220-1241 | right shift with rounding gives the nearest double in the normal range |
| `QuadConvert.NarrowedFields` | src/internal/float_gcc.cpp:1220-1241 | a quad that a normal double holds is narrowed without rounding, its exponent field moved from bias 16383 to bias 1023 |
| `QuadConvert.NarrowSubnormal` | src/internal/float_gcc.cpp:1255-1291 | denormalisation with sticky bit gives the nearest subnormal double or zero |
| `QuadConvert.NonFiniteRoundTrip` | src/internal/float_gcc.cpp:1242-1254 | infinities and NaNs come back with their payload, signalling NaNs with the quiet bit set |
| `QuadConvert.NarrowOfWiden` | src/internal/float_gcc.cpp:133-241 | narrowing a widened double gives the same bits exactly when it is not a signalling NaN |
| `Division.Udivdi3` | src/internal/gcc.cpp:4-25 | for every numerator and non-zero denominator num = q * den + r with r < den; traps exactly for zero |
| `Division.KeepsTopBit` | src/internal/gcc.cpp:14-21 | the left shift of the remainder loses no bit, whatever the denominator |
| `Division.Divdi3` | src/internal/gcc.cpp:38-52 | the signed quotient truncates toward zero |
| `Division.Moddi3` | src/internal/gcc.cpp:54-67 | the signed remainder takes the numerator's sign |
| `Division.TruncationUnique` | src/internal/gcc.cpp:38-67 | quotient and remainder with these properties are unique |
| `Calendar.YearStep` | src/internal/time.hpp:5-11 | the closed count of days before a year advances by the length of each year, for all years |
| `Calendar.DateUnique` | src/internal/time.hpp:13-18 | the calendar gives every day one date |
| `Calendar.MonthsStart` | src/internal/time.hpp:13-14 | where each month starts and how long it is, by a quotient instead of the tables |
| `Calendar.NumberIsDayNumber` | src/internal/time.hpp:5-18 | the day number of a date is a closed form of year, month and day |
| `Calendar.Gmtime` | src/ansi/time.cpp:240-303 | accepts exactly the times within the two limits and stores their fields; EOVERFLOW leaves the struct alone |
| `Calendar.SplitYear` | src/ansi/time.cpp:257-268 | the year loop finds the year of a day number |
| `Calendar.SplitMonth` | src/ansi/time.cpp:272-283 | the month loop finds the month of a day of the year |
| `Calendar.Carry` | src/ansi/time.cpp:1035-1066 | a carry loop divides, or reports EOVERFLOW exactly when the next field would pass INT_MAX |
| `Calendar.Settle` | src/ansi/time.cpp:1068-1079 | the month loop moves a date forward without changing the day it names |
| `Calendar.Timegm` | src/ansi/time.cpp:1027-1114 | fails exactly when a carry overflows, leaving the struct alone; otherwise stores the normalised fields and returns their time |
| `Calendar.RoundTrip` | src/ansi/time.cpp:1027-1114 | timegm(gmtime_r(t)) == t with unchanged fields, for every accepted time, negative ones included |
| `Calendar.RoundTripAccepted` | src/ansi/time.cpp:1035-1066 | the fields of an accepted time never overflow in `timegm` |
| `Calendar.NormalFromEpoch` | src/ansi/time.cpp:240-303 | the stored fields are all in range, with yday and wday agreeing with the date, exactly for t >= 0 |
| `Calendar.GmtimeClosedForm` | src/ansi/time.cpp:240-303 | the stored date and day of the year are those of the closed form |
| `Calendar.LimitIsDate` | src/ansi/time.cpp:246 | the limit is midnight of 30 November 2999 |
| `Calendar.WritesFromEpoch` | src/ansi/time.cpp:1035-1086 | a test on the given fields tells exactly when the year written back is 1970 or later |
| `Calendar.PosixClosedForm` | src/ansi/time.cpp:1088-1107 | the result is the seconds since the epoch of section 4.16 of POSIX.1-2017 Base Definitions exactly when the given fields name a day from the epoch on |
| `Calendar.BeforeEpoch` | src/ansi/time.cpp:1097-1099 | the first of January 1969 gives 0 |
| `Calendar.SecondsConserved` | src/ansi/time.cpp:1027-1107 | normalising conserves the instant the given fields add up to, under the same exact condition |
| `Calendar.GivenClosedForm` | src/ansi/time.cpp:1027-1107 | that instant in closed form |
| `Calendar.OverflowEdge` | src/ansi/time.cpp:1035-1046 | EOVERFLOW begins where a 32-bit int ends |
| `Calendar.NormalisedIff` | src/ansi/time.cpp:1068-1086 | for non-negative fields from 1970 on, `gmtime_r` accepts the result and gives back the fields written exactly under a test the caller can make: the day of the month counts and the instant lies below the limit |
| `Calendar.DayZeroStays` | src/ansi/time.cpp:1031 | day 0 of February 1970 is not normalised |
| `Calendar.YearThreeThousand` | src/ansi/time.cpp:244-250 | the first of January 3000 is normalised, but `gmtime_r` refuses it |
| `CString.StringsEqual` | src/rtld/shared_object.cpp:1074-1083 | true exactly when the strings before the terminators are equal |
| `GnuHash.ComputeHash` | src/rtld/shared_object.cpp:1065-1072 | the shift-and-add loop is the published h * 33 + c hash in 32 bits |
| `GnuHash.HashAppend` | src/rtld/shared_object.cpp:1065-1072 | the hash starts at 5381 and each further character is one step |
| `GnuHash.StepMeaning` | src/rtld/shared_object.cpp:1068-1070 | a step is h * 33 + c in 32 bits |
| `GnuHash.MaskReadsBits` | src/rtld/shared_object.cpp:1113-1119 | the mask test reads the two bits of the filter word that the format assigns to the hash |
| `GnuHash.Lookup` | src/rtld/shared_object.cpp:1102-1140 | on every well-formed table it terminates in bounds and returns the lowest-indexed hashed symbol with the name, or nothing exactly when there is none |
| `GnuHash.NumSymbols` | src/rtld/shared_object.cpp:126-147 | one past the last hashed symbol, and 1 for a table that hashes nothing, which is the size of the symbol table exactly if something is hashed or only the null symbol exists |
| `GnuHash.BuiltWellFormed` | src/rtld/shared_object.cpp:126-134 | every list of symbols sorted by bucket has a table of the form the lookup relies on |
| `GnuHash.NothingHashed` | src/rtld/shared_object.cpp:135-146 | every symbol table has a table of that form that hashes nothing |
| `SymbolNames.ScanMeaning` | src/rtld/shared_object.cpp:1045-1052 | the reference scan finds the lowest index with the name, or that there is none |
| `SysvHash.ComputeHash` | src/rtld/shared_object.cpp:1055-1063 | the branch-free hash, masked at the end, is the reference hash of "Hash Table" in chapter 5 of the System V gABI for every string |
| `SysvHash.StepAgrees` | src/rtld/shared_object.cpp:1058-1061 | one step keeps the reference value in the low 28 bits |
| `SysvHash.Lookup` | src/rtld/shared_object.cpp:1086-1100 | on chains that end it terminates and finds a symbol with the name exactly when a linear scan of the non-null entries does |
| `SysvHash.BuiltWellFormed` | src/rtld/shared_object.cpp:1089-1091 | every symbol table has a hash table of the form the lookup relies on, for every number of buckets |
| `Relr.Image.Apply` | src/rtld/shared_object.cpp:611-637 | the loop adds base at exactly the addresses of the decoder, in order, and panics exactly where the decoder fails |
| `Relr.Image.ApplyBitmap` | src/rtld/shared_object.cpp:622-635 | the bitmap loop adds base at the addresses of the set bits |
| `Relr.BitmapMeaning` | src/rtld/shared_object.cpp:625-633 | an address is listed exactly when it is that of a set bit |
| `Relr.DecodeMeaning` | src/rtld/shared_object.cpp:611-637 | a word is listed exactly when an entry describes it: an address, or a bit in the 63-word window after the entry before; the table is refused exactly when a bitmap has no address before it or the pointer has wrapped to null |
| `Relr.AddAllMeaning` | src/rtld/shared_object.cpp:919-943 | each word gains base once per listing of its address, modulo 2^64; other words keep their value |
| `Relr.RoundTrip` | src/rtld/shared_object.cpp:611-637 | decoding the gABI SHT_RELR encoding of a strictly increasing, word-aligned list gives the list back |
| `Relr.EncodedOnce` | src/rtld/shared_object.cpp:919-943 | relocating with an encoded table adds base once to each listed word and to no other |
| `Relocate.MovedTogether` | src/rtld/shared_object.cpp:325-443 | with everything loaded d bytes further on, exactly the stored addresses move by d; offsets, handles and missing weak symbols do not |
| `Relocate.EffectOf` | src/rtld/shared_object.cpp:325-443 | when a relocation reports its symbol and when it panics |
| `Relocate.AddendAdded` | src/rtld/shared_object.cpp:325-443 | exactly R_RELATIVE, resolved R_ABSOLUTE, R_TPOFF and R_DTPOFF add their addend to the word |
| `Relocate.ValueAdded` | src/rtld/shared_object.cpp:325-443 | exactly relocations by a symbol, but for R_DTPMOD, add its value to the word |
| `Relocate.DefinerCounts` | src/rtld/shared_object.cpp:325-443 | by a symbol, the load address and the TLS block are those of the object that defines it |
| `Relocate.OwnPlaceCounts` | src/rtld/shared_object.cpp:325-443 | without a symbol, they are those of the object itself, for R_RELATIVE and R_TPOFF |
| `Relocate.ZeroStored` | src/rtld/shared_object.cpp:325-443 | with all these at zero the word is zero, and R_DTPMOD stores the handle of the right object |
| `Relocate.FirstPass` | src/rtld/shared_object.cpp:899-1019 | after `relocate_libc` the saved addends are the original slot contents in table order and each slot holds its entry's outcome |
| `Relocate.SaveLimit` | src/rtld/shared_object.cpp:945-966 | a first pass panics at an entry to be saved exactly when 1024 addends are saved already or the relocation itself panics |
| `Relocate.SymbolFree` | src/rtld/shared_object.cpp:325-428 | an entry without a symbol has the same outcome under both resolutions |
| `Relocate.LockstepRuns` | src/rtld/shared_object.cpp:545-735 | the second pass and a single pass over pristine memory panic together or agree on every finished slot, saved addends paired with their entries |
| `Relocate.TwiceIsOnce` | src/rtld/main.cpp:340-343 | `relocate_libc` then `relocate` with the saved addends leaves the memory of one `relocate` of the pristine object under the final resolution, using every saved addend once |
| `Relocate.Linker.RelaLoop` | src/rtld/shared_object.cpp:593-609 | the loop over a RELA table runs its entries |
| `Relocate.Linker.RelLoopSaving` | src/rtld/shared_object.cpp:945-966 | the loop of `relocate_libc` over a REL table, with its limit on saved addends |
| `Relocate.Linker.RelLoop` | src/rtld/shared_object.cpp:639-673 | the loop of `relocate` over a REL table, from the slots or from the saved addends |
| `Relocate.Linker.RelocateLibc` | src/rtld/shared_object.cpp:852-1019 | all tables in order; panics exactly when the tables are unsound, an entry aborts or a symbol is unresolved |
| `Relocate.Linker.Relocate` | src/rtld/shared_object.cpp:545-735 | the same for `relocate`, which skips RELR and symbol-free REL entries when addends are saved |
| `Relocate.Linker.RelocateTwice` | src/rtld/main.cpp:258-259 | startup in place: both passes succeed exactly when the first pass and a single final pass do, and leave the latter's memory |
| `SymbolLookup.VisitsReachable` | src/rtld/object_storage.cpp:606-655 | the breadth-first visit lists every object reachable from the root exactly once and no other, nearest first, on any graph |
| `SymbolLookup.PathListed` | src/rtld/object_storage.cpp:613-655 | the end of every dependency path is listed, no deeper than the path is long |
| `SymbolLookup.PushDependencies` | src/rtld/object_storage.cpp:648-654 | the inner loop appends the unvisited dependencies, each once, and marks them |
| `SymbolLookup.ObjectStorage.Consider` | src/rtld/object_storage.cpp:616-646 | one object settles the search with a strong or unique symbol, or at most contributes the first weak one |
| `SymbolLookup.ObjectStorage.SearchOthers` | src/rtld/object_storage.cpp:566-603 | the loop over the global scope, skipping the local object |
| `SymbolLookup.ObjectStorage.SearchDependencies` | src/rtld/object_storage.cpp:605-655 | the search interleaved with the visit settles where a search of the finished order would |
| `SymbolLookup.ObjectStorage.Lookup` | src/rtld/object_storage.cpp:525-698 | returns the first strong or unique definition in (local if symbolic), the other global objects, the dependencies breadth first, the local scope; else the first weak one; unique names are bound on first use |
| `SymbolLookup.LookupMeaning` | src/rtld/object_storage.cpp:525-698 | by the symbol tables alone: a search fails exactly when no object searched exports the name, and otherwise gives the defined, non-local symbol of the object that prevails, or the recorded binding |
| `SymbolLookup.RunRecorded` | src/rtld/object_storage.cpp:525-698 | over any run every result is defined and not local, and so is every recorded binding |
| `SymbolLookup.IgnoreLocalOrder` | src/rtld/object_storage.cpp:525-612 | `IgnoreLocal` searches the same order as `None`: the other global objects and then the local one |
| `SymbolLookup.IgnoredLocalReturnedIff` | src/rtld/object_storage.cpp:525-698 | under `IgnoreLocal` the local object's definition, strong, unique or weak, is returned exactly when no other object takes precedence, and for a name bound as unique exactly when the binding is the local object's |
| `SymbolLookup.LoneObjectWins` | src/rtld/object_storage.cpp:525-698 | a lone object that defines the name is such a case |
| `SymbolLookup.BindingStays` | src/rtld/object_storage.cpp:542-555 | a unique name keeps its binding over every later lookup |
| `SymbolLookup.UniqueIsUnique` | src/rtld/object_storage.cpp:542-555 | over any run all lookups of a name that hit a unique symbol give the same definition |
| `TlsLayout.AlignUpPower` | src/rtld/object_storage.cpp:371-372 | masking with a power of two gives the next multiple |
| `TlsLayout.StartupInvIff` | src/rtld/main.cpp:242-256 | for all alignments ELF allows, the executable's and libc's blocks are laid out within the used size exactly under a test on the segments |
| `TlsLayout.StartupDisjointIff` | src/rtld/main.cpp:242-256 | they are disjoint and end before the TCB exactly when no segment with bytes in it has alignment 0 |
| `TlsLayout.StepDisjointIff` | src/rtld/object_storage.cpp:369-407 | a successful load keeps all blocks disjoint exactly when its alignment is not 0 and, after a libc without TLS, it misses the executable's block |
| `TlsLayout.RunDisjointIff` | src/rtld/object_storage.cpp:369-407 | in every state of every run of loads the blocks are disjoint, in whatever order, exactly when every load so far passed that test |
| `TlsLayout.StaticDisjointIff` | src/rtld/rtld.cpp:405-422 | over any run, in every thread, the blocks are disjoint and inside the allocation exactly when, besides, the executable's block fits the area |
| `TlsLayout.DisjointOutOfOrder` | src/rtld/object_storage.cpp:369-407 | a load may take the padding of the executable's block: disjoint, though not below it |
| `TlsLayout.StepInvIff` | src/rtld/object_storage.cpp:369-407 | a successful load keeps the blocks laid out, aligned and within the area exactly when its alignment is not 0 |
| `TlsLayout.RunInvIff` | src/rtld/object_storage.cpp:369-407 | in every state of every run of loads, before and after the area is sized, the blocks are laid out exactly when no alignment of 0 got in the way |
| `TlsLayout.RunKeeps` | src/rtld/object_storage.cpp:369-407 | offsets and the size of the area never change once set |
| `TlsLayout.ObjectStorage.Place` | src/rtld/object_storage.cpp:369-407 | an object with initial-exec TLS gets the next offset, or the load fails without change when the area is full |
| `TlsLayout.StaticTls` | src/rtld/rtld.cpp:405-422 | over any run, in every thread, also for objects loaded after it: static blocks lie between the allocation and the TCB with aligned offsets, each below the earlier ones and so disjoint, exactly when no alignment of 0 got in the way |
| `TlsLayout.TpOffAddress` | src/rtld/shared_object.cpp:401-428 | a R_TPOFF word added to the thread pointer is the address `init_tls` gives the variable |
| `TlsLayout.Memory.InitTls` | src/rtld/object_storage.cpp:719-737 | each chosen block ends up holding its image followed by zeros, and no other byte changes |
| `TlsLayout.Memory.CreateTcb` | src/rtld/rtld.cpp:405-422 | in any state of a run, the new thread's blocks hold the images of all objects placed so far, and nothing outside its area changes |
| `TlsLayout.ThreadVariable` | src/rtld/shared_object.cpp:401-428 | in such a thread the byte at the thread pointer plus a R_TPOFF word is the initial byte of that variable |
| `TlsLayout.ImageWrittenIff` | src/rtld/object_storage.cpp:719-737 | in every history an object's image has been written for a thread exactly when the thread came after the object or loaded it |
| `TlsLayout.OtherThreadMisses` | src/rtld/rtld.cpp:163 | a thread running while another loads an object has no image of it |
| `TlsLayout.OtherThreadsUntouched` | src/rtld/object_storage.cpp:719-737 | `init_tls` for one thread writes nothing outside that thread's area |
| `TlsLayout.AddressAlignedIff` | src/rtld/rtld.cpp:405-419 | a block's address is aligned exactly when memory and rounded area together end on a multiple of its alignment |
| `TlsLayout.TcbPlacement` | src/rtld/rtld.cpp:407-419 | the TCB lies on a multiple of 16 exactly as far as the allocation does |
| `TlsLayout.OverAlignedBlock` | src/rtld/rtld.cpp:407-419 | a 64-aligned block of the executable starts 16 past a multiple of 64 in every page-aligned allocation |
| `TlsLayout.PlacedClearIff` | src/rtld/object_storage.cpp:371-372 | among the alignments ELF allows, a block lies clear of the used part exactly when its alignment is not 0 or there is nothing to place or keep clear of |
| `TlsLayout.LibcWithoutTls` | src/rtld/main.cpp:255-256 | without a TLS segment in libc the next object overlaps the executable's block |
| `Utf8.CharRoundTrip` | src/ansi/uchar.cpp:5-103 | decoding a string that starts with the encoding of a non-null character up to 0x10FFFF, surrogates included, gives it back with the bytes it took |
| `Utf8.PrefixIncomplete` | src/ansi/uchar.cpp:5-103 | a proper prefix of an encoding is incomplete, never a character or an error |
| `Utf8.ReencodeIff` | src/ansi/uchar.cpp:5-103 | encoding a decoded character, NUL included, gives its bytes back exactly when the sequence starts as section 4 of RFC 3629 demands, surrogates aside |
| `Utf8.ExcludedForms` | src/ansi/uchar.cpp:5-103 | an overlong slash, the overlong NUL, the value after 0x10FFFF and a surrogate are accepted, and the surrogate is written too; the grammar of section 4 of RFC 3629 has none of them |
| `Utf8.AcceptedRfcIff` | src/ansi/uchar.cpp:5-103 | an accepted sequence is one of that grammar exactly when its first two bytes are canonical and not those of a surrogate |
| `Utf8.RfcAccepted` | src/ansi/uchar.cpp:5-103 | every sequence of that grammar is accepted as one character |
| `Utf8.EncodedRfcIff` | src/ansi/wchar.cpp:31-63 | what the encoder writes is a sequence of that grammar exactly when the character is no surrogate, or is negative with an ASCII low byte |
| `Utf8.NegativeWitness` | src/ansi/wchar.cpp:31-63 | for the character -1 the encoder writes FF, which the decoder rejects |
| `Utf8.DecodesSequence` | src/ansi/uchar.cpp:5-103 | the decoder takes a character exactly where the lead byte's length is filled with tails within the count, of that length, and null for null |
| `Utf8.TextReencodeIff` | src/internal/string.cpp:32-71 | encoding a decoded text gives its bytes back exactly when every sequence in it, split by lead bytes, starts so |
| `Utf8.DecodedRfcIff` | src/internal/string.cpp:32-71 | the text, split by lead bytes, follows the grammar exactly when encoding what was decoded gives its bytes back and no character is a surrogate |
| `Utf8.EncodedTextRfcIff` | src/ansi/wchar.cpp:100-135 | the encoding of a wide string over 1..0x10FFFF follows the grammar exactly when it holds no surrogate |
| `Utf8.OverlongNulEnds` | src/internal/string.cpp:58-61 | the string decoder takes an overlong NUL for the terminator |
| `Utf8.UsedWithinCount` | src/ansi/uchar.cpp:5-103 | a decoded character never takes more bytes than were offered |
| `Utf8.Wcsrtombs` | src/ansi/wchar.cpp:100-135 | writes a whole number of characters, as many as fit, and stops at the first that does not fit, at an illegal one or after the terminator; the rest of the buffer is untouched |
| `Utf8.ChunksJoin` | src/ansi/wchar.cpp:100-135 | any series of resumed calls that ends, at the terminator or at an illegal character, writes what one call with enough room writes and ends at the same place |
| `Utf8.SeriesEnds` | src/ansi/wchar.cpp:100-135 | with buffers of four bytes or more a series that keeps stopping is no longer than the rest of the string |
| `Utf8.ResumeProgress` | src/ansi/wchar.cpp:113-116 | a resumed call moves on exactly when its buffer holds the first character; four bytes always do |
| `Utf8.Mbsnrtowcs` | src/internal/string.cpp:32-71 | stores the decoded characters up to the limit, reports -1 exactly when an illegal sequence follows within it, nulls the source exactly when the terminator is stored, and otherwise leaves it where decoding can resume |
| `Utf8.StringRoundTrip` | src/internal/string.cpp:32-71 | decoding the encoding of a wide string over 1..0x10FFFF gives it back |
| `Utf8.RoundTripIff` | src/ansi/wchar.cpp:31-63 | among the strings `wcsrtombs` accepts, exactly those without a negative character survive the round trip |

## Left out

- Weak memory: the protocols are modelled under sequential consistency.
- MutexProtocol.StepInv: the recursion count is unbounded, and timed or process-shared locks do not exist in the code.
- BarrierProtocol.StepInv: the sequence counter is unbounded, and `pthread_barrier_destroy`, which waits on `inside`, is not modelled.
- BarrierProtocol.StuckMeansLost: no progress is claimed for a barrier, only the exact way it can be lost.
- ThreadKeys.StepInv: the generation counter is unbounded, and each operation is one step because it holds KEYS_MUTEX.
- Semaphores, read-write locks and condition variables.
- QuadAdd.AddTf3: the inexact exception flag is not modelled.
- binary128 multiplication, division, comparison and the integer conversions; the float instances of the conversions.
- Division.Divdi3: operands other than INT64_MIN, whose negation is undefined.
- Calendar.Timegm: the year reached by the day loop, and the products of negative fields, are unbounded; the month is not negative, as the table access asks.
- Time zones: `localtime_r`, `mktime` and `strftime`.
- Utf8.Mbsnrtowcs: the conversion state argument, which the code ignores.
- Relocate.TwiceIsOnce: TLSDESC relocations, and tables whose slots overlap; the first pass is assumed not to panic.
- Relocate.Linker.Relocate: the tables are values, so relocations of the tables themselves are not modelled; reading past the saved addends counts as a panic and never occurs by TwiceIsOnce.
- R_COPY and R_IRELATIVE, which `late_relocate` handles.
- SymbolLookup.ObjectStorage.Lookup: what an object's own hash table finds for a name is a parameter.
- TlsLayout.StepInvIff: alignments are those ELF allows, 0 or a power of two, and sums stay below 2^64.
- TlsLayout.Memory.InitTls: an image is no longer than its block, as ELF asks; the code would copy past the end.
- TLS above the thread pointer (AArch64), dynamic TLS, and the rollback of a failed `load_dependencies`.
- System calls, files, the allocator, formatted input and output, mathematics, networking and the other library functions.
