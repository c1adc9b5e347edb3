# A verified model of iSH's kernel core

iSH runs Linux user programs on a host that is not Linux, so it carries a small kernel of its
own: record locks, futexes, a file system whose metadata lives in two database tables, path
and mount resolution, descriptor tables, terminals, the stack a new process starts on, the
software TLB its memory accesses go through, and an 80-bit soft float. This project models
these parts in Dafny and proves what they are for.

| file | part of the program |
|---|---|
| RecordLocks.dfy | POSIX record locks, fs/lock.c |
| PowersOfTwo.dfy, Float80*.dfy | 80-bit floating point, emu/float80.c |
| Futex.dfy, FutexTable.dfy | futexes, kernel/futex.c: the protocol, and the records and hash chains that refine it |
| FakefsPaths.dfy, Fakefs.dfy, FakefsInodes.dfy | fakefs metadata and inode lifetime, fs/fake-db.c, fs/fake.c, fs/inode.c, fs/generic.c: the steps, and the inode records and hash chains that refine them |
| Tlb.dfy | software TLB, emu/tlb.c and emu/tlb.h |
| PathNormalize.dfy | path resolution, fs/path.c |
| Mounts.dfy | mount list and path trimming, fs/mount.c and fs/generic.c |
| FdTable.dfy | open files and descriptor tables, fs/fd.c |
| Tty.dfy | canonical mode of a terminal, fs/tty.c |
| ExecStack.dfy | initial process stack, kernel/exec.c |

Code that changes state is a class whose methods are proved equal to a step of a pure
specification; what the source promises is then proved of that specification, over every run
where the source is a protocol. `dafny verify dfyconfig.toml` checks everything.

What comes from outside is a parameter or a step: user stores to futex words, the limit on
open files, what the real file system answers, the page table, the random bytes, the ELF
header fields. A section that holds a lock, or runs in a transaction, is an atomic step; a call
with several sections is several steps, and other threads may come in between.

## Where the code and the promise differ

- Rounding and packing: `u128_normalize_round` returns what IEEE 754-2008 asks for, overflow and
  underflow included, except on four families of inputs
  (`Float80Range.NormalizeRoundIff`): an exact power of two that overflows and should become the
  greatest finite number becomes infinity; a value below the least normal number that rounds up
  to it gets a significand its exponent does not allow; a value whose exponent is below the
  normal range is rounded twice, and the first rounding can lose it altogether or hide on which
  side of a tie it lay; and zero with a large exponent comes out unsupported, or not as zero.
- Multiplication is right exactly when that is (`Float80Arithmetic.MulCorrectIff`), so always from
  the least normal number on (`Float80Arithmetic.MulCorrect`). `Float80Arithmetic.ZeroTimesLarge`,
  `Float80Arithmetic.MulRoundsTwice` and `Float80Arithmetic.MulReachesNormal` are products where
  it is not.
- Division: `f80_div` keeps no sticky bit, and shifts the remainder left in 128 bits. In the normal
  range a quotient is right exactly when the shifted remainder fits, and in the nearest mode when
  besides the operands are not a near-tie (`Float80Division.DivNormalIff`); a remainder that does
  not fit makes every mode wrong. That of a normal dividend always fits
  (`Float80Division.NormalDividendFits`). `Float80Division.DivMisrounds` names a near-tie and
  `Float80Division.DenormalDividendCutOff` a denormal dividend whose remainder does not fit.
  Outside the normal range see `Float80Division.DivCorrectIff`; zero by a small number is not a
  supported number (`Float80Division.ZeroBySmall`).
- Shifting: `u128_shift_right_round` rounds right exactly when `LosesBits` is false
  (`Float80Rounding.ShiftRightRoundsIff`); `Float80Rounding.ShiftLosesBits` is an input where it
  does not. The alignment of `f80_add` meets such inputs from an exponent gap of 66 on. For two
  normal operands the lost bits do not matter; a denormal operand can be lost altogether.
- Addition of any two finite numbers is right except on the operands of `Misadds`
  (`Float80Sum.AddCorrectIff`). Two normal numbers fail to nearest at an exponent gap of exactly
  65, on two families of significands (`Float80Sum.AddMisrounds`). A denormal operand is aligned
  one place too far: up to exponent 64 of the normal operand the code adds half of it
  (`Float80Sum.AddsHalfDenormal`), which is right exactly when rounding absorbs the other half
  (`Float80MixedAddition.MixedIff`, `Float80Sum.DenormalHalved`); beyond, it is lost to a directed
  mode, or misjudged below a power of two, on the operands of `LosesDenormal`
  (`Float80FarAddition.WrongDigitDenormal`, `Float80Sum.DenormalLost`). An exact 2^16384 that
  should become the greatest finite number becomes infinity (`Float80Sum.ChoppedToInfinity`). Two
  zeroes of opposite signs give plus zero also when rounding down, where section 6.3 of IEEE
  754-2008 asks for minus zero (`Float80Sum.ZeroesAddToPlusZero`).
- The final assertion of `f80_add` holds for all normal operands, and fails exactly for a number
  of the least normal exponent minus a denormal that leaves half a unit below the least normal
  (`Float80Compare.AddSupportedIff`, `Float80Compare.AddTripsAssertion`).
- Doubles: `f80_to_double` is right for every number in the normal range of doubles. Beyond it
  returns infinity also when rounding towards zero; below it drops the lowest bit and rounds
  twice, and a carry into the least normal double becomes zero (`Float80Doubles.ToDoubleIff`,
  `Float80Doubles.CarryDropped`). The significand of a NaN is rounded too: it stays a NaN exactly
  when that leaves it between nothing and a carry (`Float80Doubles.SpecialToDouble`,
  `Float80Doubles.NanBecomesZero`).
- Integers: `f80_to_int` is right for every value 64 bits hold. Of a greater one it returns the
  indefinite integer, except between 2^63 and 2^64 in magnitude, where it wraps around
  (`Float80Convert.ToIntCorrectIff`, `Float80Convert.ToIntWraps`).
- Comparison: `f80_gt` is the negation of `f80_lte`, so it holds of operands without an order, where
  section 5.11 of IEEE 754-2008 asks for false (`Float80Special.GtDecidesOrderIff`,
  `Float80Special.NanIsGreater`).
- Futexes: a requeue onto the same address comes by the sleepers it has moved again, and counts
  them again, exactly when two or more are left and more may be moved than are left
  (`Futex.SelfRequeueCountIff`, `Futex.SelfRequeueOvercounts`). It is also the only step that lets
  one sleeper pass another (`Futex.RunKeepsOrder`, `Futex.TurnedOrderIff`, `Futex.TurningReorders`).
- Locks: `file_lock_remove_owned_by` wakes nobody. A request can be left asleep exactly when the
  owner that goes holds a byte that at most one other owner holds
  (`RecordLocks.DropOwnerLeavesAsleepIff`, `RecordLocks.CloseLeavesAsleep`).
- Lock ranges: offsets wrap around. A request means the bytes POSIX gives it exactly when those
  are representable (`RecordLocks.FromFlockMeansPosixRangeIff`); when it becomes an inverted
  range is `RecordLocks.FromFlockInvertedIff`, with `RecordLocks.FlockInverts` as an example. An
  inverted request is still granted: no byte changes hands, but the list can be left with
  overlapping pieces or an inverted lock (`RecordLocks.InvertedWellFormedIff`,
  `RecordLocks.InvertedSpoils`).
- Descriptors: `dup` and `dup3` look a file up under the table's lock and retain it later, and
  `dup3` stores into the table without the lock. Counts stay exact exactly when the file, and the
  slot, are left alone in between (`FdTable.NextKeepsInvIff`); on a shared table a close can come
  in between and leave a closed file in a slot (`FdTable.DupRace`). `dup2` of a descriptor onto
  itself, which POSIX leaves alone, clears its close-on-exec bit (`FdTable.DupOntoItselfIff`).
- Fakefs: a rename, link or creation over the last name of an inode that nothing holds leaves its
  stats row behind until the next mount, and no other step does (`Fakefs.NextKeepsAccountedIff`,
  `Fakefs.RenameLeaksRow`).
- Paths: after a relative link the code starts over from the root. From a directory without
  links a success is the component-wise resolution (`PathNormalize.SuccessIsResolve`); with a
  link in the start directory the two can differ (`PathNormalize.LinkedStartDiffers`). A slash
  at the end asks for a directory. Not following links, the code stops at a last name that is a
  link or no directory; following them, it drops the slash behind a last link, and asks nothing
  of what the chain of links ends at unless a target ends in a slash itself
  (`PathNormalize.TrailingSlashIff`, `PathNormalize.SlashDropped`). The header comment of fs/path.h
  says the last component is skipped when following links; the code skips it when not following,
  and so does the model. `path_is_normalized` also accepts one slash at the end
  (`PathNormalize.PathIsNormalized`).
- Terminals: an end-of-file typed at the start of a line is taken by the read of the line
  before it, and so never reported, exactly when it is already buffered and that read asks for
  the whole line (`Tty.LosesEofIff`, `Tty.EofLost`).

## Model

| member | source | states |
|---|---|---|
| `RecordLocks.BlockedIffBytesForbid` | fs/lock.c:6-32 | a request conflicts with the list if and only if some byte of it is forbidden by another owner's mode |
| `RecordLocks.PlaceHolds` | fs/lock.c:69-134 | whatever merges, splits and deletions happen on the way, the new list gives the requester's bytes the new mode and every other (owner, byte) its old one |
| `RecordLocks.PlaceCoalesced` | fs/lock.c:69-134 | one owner's locks stay disjoint and maximally coalesced |
| `RecordLocks.PlaceGrouped` | fs/lock.c:60-134 | the locks of an owner stay together in the list |
| `RecordLocks.PlacePids` | fs/lock.c:69-134 | every lock in the list carries the pid of the request, or is a piece of an old lock and carries its pid |
| `RecordLocks.AcquireGrants` | fs/lock.c:50-59 | a request is granted if and only if the byte map allows it |
| `RecordLocks.AcquireRefinesByteMap` | fs/lock.c:50-136 | a granted request sets or clears the requester's bytes in the range asked for, and no others |
| `RecordLocks.AcquireKeepsWellFormed` | fs/lock.c:50-136 | a granted request keeps grouping, coalescing and the absence of conflicts between owners |
| `RecordLocks.WithoutKeepsWellFormed` | fs/lock.c:245-254 | dropping an owner keeps the list well formed |
| `RecordLocks.WithoutFreesOwner` | fs/lock.c:245-254 | it frees exactly that owner's bytes |
| `RecordLocks.WithoutSplits` | fs/lock.c:245-254 | dropping an owner keeps the others' locks in their order |
| `RecordLocks.StepRefines` | fs/lock.c:50-136 | every operation answers and changes as the same operation on the plain byte map does |
| `RecordLocks.RunRefines` | fs/lock.c:50-254 | so does every run of operations, and the list is well formed at its end |
| `RecordLocks.SignalsIffOverridden` | fs/lock.c:90-130 | waiters are notified if and only if a lock of the requester of another kind is overlapped |
| `RecordLocks.NewlyGrantableIsSignalled` | fs/lock.c:50-136 | a request that an operation unblocks is always notified by it |
| `RecordLocks.DropOwnerLeavesAsleepIff` | fs/lock.c:245-254 | closing can leave a grantable request asleep if and only if the owner that goes holds a byte that at most one other owner holds |
| `RecordLocks.CloseLeavesAsleep` | fs/lock.c:245-254 | one write lock, and a waiter that its owner's close lets through and nobody wakes |
| `RecordLocks.FromFlockMeansPosixRangeIff` | fs/lock.c:140-182 | for every whence, start and length: the lock covers exactly the bytes the fcntl page assigns, measured from the beginning, the position or the end, if and only if those are representable |
| `RecordLocks.FromFlockErrors` | fs/lock.c:140-167 | EINVAL for an unknown whence, the error of the file when its position or size is one, and a range otherwise |
| `RecordLocks.AddressableCovers` | fs/lock.c:140-182 | the lock of a request within the offset type covers exactly the bytes asked for |
| `RecordLocks.RequestOnBytes` | fs/lock.c:140-243 | from the flock to the byte map: a request is granted if and only if no byte asked for is held by another owner in a mode that excludes it, and then the owner has those bytes in the mode of the lock type and no other byte changes |
| `RecordLocks.FromFlockInvertedIff` | fs/lock.c:140-182 | the three ways, in terms of the start without wrap-around, in which the range ends before it starts |
| `RecordLocks.FlockInverts` | fs/lock.c:140-182 | a request that becomes an inverted range |
| `RecordLocks.InvertedKeepsBytes` | fs/lock.c:69-134 | an inverted request changes no byte of any owner |
| `RecordLocks.InvertedWellFormedIff` | fs/lock.c:69-134 | it leaves the list well formed if and only if it lies in no lock of its owner of another kind, and only unlocks or touches one of its own kind |
| `RecordLocks.InvertedSpoils` | fs/lock.c:69-134 | an inverted request on an empty list leaves a lock that covers no byte |
| `RecordLocks.FlockRoundTripIff` | fs/lock.c:140-194 | a lock reported to the user and converted back is the same lock if and only if its length is representable |
| `RecordLocks.InodeLocks.FirstConflict` | fs/lock.c:25-32 | finds the first conflicting lock if there is one |
| `RecordLocks.InodeLocks.Cut` | fs/lock.c:104-128 | replaces one overlapped lock by the pieces outside the request |
| `RecordLocks.InodeLocks.AcquireLock` | fs/lock.c:50-136 | the traversal, with its growing request, computes the specified list, notifies as specified, and touches nothing on EAGAIN |
| `RecordLocks.InodeLocks.RemoveOwnedBy` | fs/lock.c:245-254 | removes the owner's locks and keeps the others in order |
| `RecordLocks.InodeLocks.GetLk` | fs/lock.c:196-215 | the error of each case; otherwise "unlocked" if and only if POSIX would grant the request on the bytes it asks for, else the description of a conflicting lock |
| `RecordLocks.InodeLocks.SetLk` | fs/lock.c:217-243 | the error of each case, the list untouched on every error; otherwise EAGAIN if and only if another owner's mode excludes the one asked for on some byte asked for, else the owner has those bytes in the mode of the lock type and nothing else changes; well formed after a proper range, and after an inverted one exactly when stated |
| `Float80Rounding.ShiftRightRoundsIff` | emu/float80.c:46-78 | for every 128-bit value and shift: the result is the value divided by the power of two and rounded in the mode, if and only if `LosesBits` does not hold |
| `Float80Rounding.ShiftRightRounds` | emu/float80.c:46-78 | it is so for values below 2^64 with any shift and for any value with a shift of at most 65 |
| `Float80Rounding.ShiftLosesBits` | emu/float80.c:46-78 | a quarter rounded up to zero |
| `Float80Values.GridRoundingIsCorrect` | emu/float80.c:154-192 | rounding to the grid of the result's exponent is rounding among all numbers of the format |
| `Float80Values.MirrorRounded` | emu/float80.c:38-41 | rounding a negative number is rounding its opposite with the directed modes exchanged |
| `Float80Normalize.ClzFills` | emu/float80.c:142-152 | shifting by the count of leading zeroes puts the leading bit on top |
| `Float80Range.OnGridIff` | emu/float80.c:154-192 | a number on the grid of the exact value's binade is what the standard asks for, overflow and underflow included, if and only if it is the exact value rounded on that grid |
| `Float80Range.TwiceRoundedIff` | emu/float80.c:156-184 | a shift with rounding followed by rounding the upper half is one correct rounding if and only if `RoundsTwice` does not hold |
| `Float80Range.NormalizeRoundIff` | emu/float80.c:154-192 | for every 128-bit value, exponent, sign and mode: the packed number is what the standard asks for, in range, below it and above it, if and only if `Spoils` does not hold |
| `Float80Arithmetic.MulCorrectIff` | emu/float80.c:420-442 | the product of any two finite numbers is what the standard asks for in all four modes, if and only if packing does not spoil it |
| `Float80Arithmetic.MulCorrect` | emu/float80.c:420-442 | it always is from the least normal number on, overflow included |
| `Float80Arithmetic.ZeroTimesLarge` | emu/float80.c:420-442 | zero times 2^127 is wrong in every mode |
| `Float80Arithmetic.MulRoundsTwice` | emu/float80.c:420-442 | a product just above half the least denormal number becomes zero |
| `Float80Arithmetic.MulReachesNormal` | emu/float80.c:420-442 | a product that rounds up to the least normal number is not a supported number |
| `Float80Division.QuotientIsFloor` | emu/float80.c:463-474 | for every nonzero dividend, denormal ones included: if the shifted remainder fits in 128 bits, the computed quotient is the exact floor and is normalized |
| `Float80Division.NormalDividendFits` | emu/float80.c:466-474 | the remainder of a normal dividend always fits |
| `Float80Division.QuotientFallsShort` | emu/float80.c:463-474 | if it does not fit, the computed quotient falls short by more than a unit of the result |
| `Float80Division.LowHalfZeroIsExact` | emu/float80.c:463-480 | if the remainder fits, a zero low half means there is no remainder |
| `Float80Division.HiddenTieIff` | emu/float80.c:463-480 | if the remainder fits, one hides behind a tie if and only if the operands are a near-tie |
| `Float80Division.QuotientRoundsIff` | emu/float80.c:463-480 | for every nonzero dividend: the upper half rounds the exact quotient if and only if the remainder fits and, to nearest, the operands are not a near-tie |
| `Float80Division.DivNormalIff` | emu/float80.c:444-481 | the same for the packed result, as a correctly rounded exact quotient in the normal range |
| `Float80Division.DivCorrectIff` | emu/float80.c:444-481 | any finite number by any nonzero finite one, zero dividends, overflow and underflow included: the quotient is what the standard asks for if and only if `DivSpoils` does not hold |
| `Float80Division.DivMisrounds` | emu/float80.c:444-481 | two normal numbers whose quotient is rounded wrongly to nearest |
| `Float80Division.DenormalDividendCutOff` | emu/float80.c:470-474 | a denormal number by a normal one, with a quotient in the normal range that is wrong in every mode |
| `Float80Division.ZeroBySmall` | emu/float80.c:463-476 | zero by a number of the size of 2^-65 is wrong in every mode |
| `Float80Addition.AlignmentExact` | emu/float80.c:353-356 | aligning loses nothing up to an exponent gap of 64 |
| `Float80Addition.RoundSumIff` | emu/float80.c:358-415 | an exact 128-bit sum is returned as the standard asks, in the normal range, below and above it, except for an exact 2^16384 brought nearer to zero |
| `Float80FarAddition.FarShift` | emu/float80.c:353-356 | what the alignment leaves of a normal operand 65 or more places down, and when it reaches a quarter or a half of the last place |
| `Float80FarAddition.FarDenormalShift` | emu/float80.c:353-356 | what it leaves of a denormal operand, and exactly when that is nothing although rounding away from zero |
| `Float80FarAddition.WrongDigitNormal` | emu/float80.c:353-398 | at 65 or more places the digit kept for two normal operands is wrong if and only if they split a tie |
| `Float80FarAddition.WrongDigitDenormal` | emu/float80.c:353-398 | and for a denormal operand if and only if it is lost to a directed mode or misjudged below a power of two |
| `Float80FarAddition.FarIff` | emu/float80.c:332-415 | such a sum is what the standard asks for if and only if the digit is not wrong |
| `Float80MixedAddition.MixedIff` | emu/float80.c:332-415 | a normal operand of exponent up to 64 and a nonzero denormal one: the sum is what the standard asks for if and only if rounding absorbs the half that is not added, in and across binades and below the normal range |
| `Float80Sum.AddCorrectIff` | emu/float80.c:332-415 | the exact sum of any two finite numbers is returned as the standard asks in all four modes, overflow and underflow included, if and only if `Misadds` does not hold; and the sign of an exact zero |
| `Float80Sum.AddMisrounds` | emu/float80.c:332-415 | two normal numbers whose sum is rounded wrongly to nearest |
| `Float80Sum.ZeroesAddToPlusZero` | emu/float80.c:400-407 | two zeroes of opposite signs add to plus zero in every mode |
| `Float80Sum.AddsHalfDenormal` | emu/float80.c:353-360 | a normal operand of exponent up to 64 and a denormal one: the result is the normal one plus half the denormal one, as the standard rounds that, unless it rounds up to the least normal number |
| `Float80Sum.DenormalHalved` | emu/float80.c:353-360 | two operands whose sum is wrong for that reason in every mode |
| `Float80Sum.DenormalLost` | emu/float80.c:353-356 | a denormal number lost to a normal one although rounding up |
| `Float80Sum.ChoppedToInfinity` | emu/float80.c:163-174 | twice 2^16383 chopped to infinity |
| `Float80Compare.AddSign` | emu/float80.c:332-415 | for all finite operands, at any distance, the result has the sign of the exact sum |
| `Float80Compare.AddSupportedIff` | emu/float80.c:332-415 | the final assertion holds if and only if neither order of the operands trips it |
| `Float80Compare.AddTripsAssertion` | emu/float80.c:412-413 | two operands on which the final assertion fails |
| `Float80Compare.LtDecidesOrder` | emu/float80.c:500-512 | less-than by subtraction decides the order of values, denormals, zeroes and infinities included, in every mode |
| `Float80Compare.EqDecidesEquality` | emu/float80.c:513-519 | equality decides equality of values |
| `Float80Special.DivSpecial` | emu/float80.c:444-462 | division with a zero or infinite operand: invalid for 0/0 and inf/inf, an infinity for a nonzero number by zero and for infinity by a number, a zero for a number by infinity, each with the sign of the quotient |
| `Float80Special.MulSpecial` | emu/float80.c:420-432 | infinity times zero is invalid, and times anything else an infinity of the sign of the product |
| `Float80Special.AddSpecial` | emu/float80.c:332-352 | opposite infinities are invalid, and any other sum with an infinity is that infinity |
| `Float80Special.NanOperand` | emu/float80.c:318-330 | a NaN operand is handed on, whatever the other operand is; of two the positive one, or the first |
| `Float80Special.UnsupportedOperand` | emu/float80.c:318-330 | a number the format does not have makes every operation invalid |
| `Float80Special.SubCorrectIff` | emu/float80.c:416-418 | a difference of finite numbers is what the standard asks for if and only if the sum with the opposite is |
| `Float80Special.UnorderedIsFalse` | emu/float80.c:492-523 | less-than, equal and less-or-equal are false of a NaN or an unsupported number |
| `Float80Special.LteDecidesOrder` | emu/float80.c:521-523 | less-or-equal decides the order of values |
| `Float80Special.GtDecidesOrderIff` | emu/float80.c:524-526 | greater-than is right if and only if both operands have an order |
| `Float80Special.NanIsGreater` | emu/float80.c:524-526 | a NaN is greater than itself |
| `Float80Special.SpecialToInteger` | emu/float80.c:211-222 | rounding leaves infinities and NaNs alone, and they convert to the indefinite integer |
| `Float80Convert.NormalizeValue` | emu/float80.c:116-140 | normalizing any nonzero number with a nonzero exponent keeps its value and makes it supported, denormal results included |
| `Float80Convert.IntRoundTrip` | emu/float80.c:194-222 | every 64-bit integer converts exactly, with its sign, and comes back |
| `Float80Convert.ToIntCorrectIff` | emu/float80.c:211-222 | for every finite number: the result is the value rounded in the mode if and only if 64 bits hold that; otherwise it is the indefinite integer if and only if the magnitude is not between 2^63 and 2^64 |
| `Float80Convert.ToIntWraps` | emu/float80.c:211-222 | 2^63 + 1 becomes the least integer plus one |
| `Float80Convert.RoundCorrect` | emu/float80.c:291-307 | rounding to an integer is correct for every finite number |
| `Float80Convert.RoundIdempotent` | emu/float80.c:291-307 | rounding twice is rounding once, for every bit pattern |
| `Float80Convert.DoubleRoundTrip` | emu/float80.c:235-289 | every 64-bit double comes back bit for bit in every mode |
| `Float80Doubles.FromDoubleExact` | emu/float80.c:235-256 | every finite double converts to its exact value, and zeroes, infinities and NaNs stay what they are, with their sign |
| `Float80Doubles.ToDoubleIff` | emu/float80.c:258-289 | for every finite number and mode: the double is the one the standard asks for, in range, below and above it, if and only if `DoubleSpoils` does not hold |
| `Float80Doubles.CarryDropped` | emu/float80.c:269-285 | the greatest number below the least normal double becomes zero |
| `Float80Doubles.SpecialToDouble` | emu/float80.c:258-289 | infinities stay infinities, a number the format does not have becomes a NaN, and a NaN stays one if and only if its significand survives rounding |
| `Float80Doubles.NanBecomesZero` | emu/float80.c:277-285 | the NaN with all bits set becomes zero |
| `Futex.NextKeepsWellFormed` | kernel/futex.c:95-151 | every step of wait, timeout, wake, requeue and store keeps each sleeper in one queue, once |
| `Futex.RunKeepsWellFormed` | kernel/futex.c:95-151 | so does every run |
| `Futex.WaitSleepsIff` | kernel/futex.c:95-108 | a thread sleeps, last in the queue of its address and in no other, if and only if the word is there and holds the value expected; else EAGAIN or EFAULT and nothing changes |
| `Futex.EarlierServedFirst` | kernel/futex.c:95-151 | first come, first served, over any run in between and after: while the earlier of two waiters is still where it waited, the later is in the queue behind it |
| `Futex.RunKeepsOrder` | kernel/futex.c:95-151 | over every run without a requeue of the queue onto itself no sleeper passes another |
| `Futex.TurnedOrderIff` | kernel/futex.c:131-146 | a requeue of a queue onto itself keeps the order of two sleepers if and only if the new front does not fall between them |
| `Futex.TurningReorders` | kernel/futex.c:131-146 | two sleepers that it turns round |
| `Futex.RequeueServesInOrder` | kernel/futex.c:117-151 | onto another address: the oldest are woken, the next move in order to the tail of the second queue, the rest stay in order, and the total is returned |
| `Futex.RequeueOntoItself` | kernel/futex.c:117-151 | onto the same address: the oldest are woken and the rest of the queue is rotated; nobody else is touched |
| `Futex.RotatedIs` | kernel/futex.c:131-146 | the rotated queue is the old one read from a later place on |
| `Futex.SelfRequeueCountIff` | kernel/futex.c:117-151 | the answer then counts each sleeper once if and only if one is left at most, or no more may be moved than are left |
| `Futex.SelfRequeueOvercounts` | kernel/futex.c:117-151 | two sleepers, answered as five |
| `Futex.RunKeepsUpToDate` | kernel/futex.c:84-115 | while a word is not stored to, nobody who queued on it compared against another value |
| `Futex.NoLostWakeup` | kernel/futex.c:84-151 | after a store and a wake of all, in any run, no waiter that compared against an older value is left in the queue |
| `FutexTable.LastReferenceQueueEmpty` | kernel/futex.c:69-75 | when the last reference is put the queue is empty, so the assertion there cannot fail |
| `FutexTable.MoveOneCounted` | kernel/futex.c:135-143 | moving a waiter keeps every count, and the count it leaves is above one, so the assertion there cannot fail |
| `FutexTable.Table.constructor` | kernel/futex.c:30-33 | an empty table refines the protocol's initial state |
| `FutexTable.Table.GetUnlocked` | kernel/futex.c:35-57 | finds or makes the one record of a key and counts the caller |
| `FutexTable.Table.PutUnlocked` | kernel/futex.c:69-75 | drops the caller's count, and frees the record only at zero |
| `FutexTable.Table.StartWait` | kernel/futex.c:95-108 | compare and enqueue are one step of the protocol: the caller is last in the queue if and only if the word holds the value, else EAGAIN, or EFAULT for an address that is not there, and nothing changes |
| `FutexTable.Table.FinishWait` | kernel/futex.c:108-115 | leaving, woken or timed out, is a step of the protocol, with the reference put on the record the waiter is now on |
| `FutexTable.Table.WakeSome` | kernel/futex.c:121-129 | the loop wakes as the protocol says and counts |
| `FutexTable.Table.RequeueSome` | kernel/futex.c:131-146 | the loop moves as the protocol says, and every reference count stays exact |
| `FutexTable.Table.WakeLike` | kernel/futex.c:117-151 | the whole call is a step of the protocol and leaves no reference behind |
| `FakefsPaths.RangeIsPrefix` | fs/fake-db.c:263-264 | the byte-order range from src/ to src0 is the prefix src/ |
| `FakefsPaths.RangeIsSubtree` | fs/fake-db.c:135-155 | the rows a rename touches are the path and what lies under it |
| `FakefsPaths.NewNameUnder` | fs/fake-db.c:165-177 | the new name lies under the destination, and renaming back gives the old one |
| `FakefsPaths.RenameMovesSubtree` | fs/fake-db.c:135-155 | each row under the source is found at its new name with its inode, none is left, and every other row is as before unless overwritten |
| `FakefsPaths.PathRename` | fs/fake-db.c:135-155 | the row-by-row update gives that result |
| `Fakefs.NextKeepsInv` | fs/fake.c:25-131 | every step keeps: each path names an inode with a stat row, each live inode has its row and counts its descriptors; and no step dies |
| `Fakefs.UnlinkRemoves` | fs/fake.c:92-104 | the path names nothing afterwards, every other path what it did, and the inode is to be checked |
| `Fakefs.LinkShares` | fs/fake.c:79-90 | both paths name one inode and give one stat; no other path changes |
| `Fakefs.CreateNames` | fs/fake.c:133-187 | the path gives the stat it was created with, and every other path what it gave |
| `Fakefs.OpenFinds` | fs/fake.c:25-52 | a descriptor on the inode the path names, made with the stat given if there was none and creation is asked for; none otherwise |
| `Fakefs.AcquireHolds` | fs/generic.c:55-63 | the descriptor counts as one more holder of its inode, or goes if the row has gone |
| `Fakefs.SetStatReadsBack` | fs/fake.c:263-274 | the stat set through a descriptor is found at every name of its inode, and nowhere else |
| `Fakefs.RenameMoves` | fs/fake.c:120-131 | what stat finds below the source is found at the same names below the destination, nothing is left, and elsewhere nothing changes |
| `Fakefs.CloseForgets` | fs/inode.c:66-81 | one descriptor goes, and no path finds anything else |
| `Fakefs.CheckDeletes` | fs/inode.c:52-58 | the row goes if and only if no path names the inode and nothing holds it, and the check is done |
| `Fakefs.DeletedOnlyUnused` | fs/fake-db.c:266 | a stat row is deleted only when no path names it and no open file refers to it |
| `Fakefs.RunNeverDies` | fs/fake-db.c:97-100 | in every run, reading the stat of an open descriptor finds its row |
| `Fakefs.LastCloseFrees` | fs/inode.c:66-81 | the last close of an unlinked file frees its row |
| `Fakefs.UnlinkFrees` | fs/fake.c:92-104 | unlinking the only name of a file nobody has open, and its check, delete its row |
| `Fakefs.UnlinkedUntilClosed` | fs/fake.c:92-104 | of one that is open the row stays, with its stat, until the last descriptor is closed, whether the check comes before or after |
| `Fakefs.RunFreesUnused` | fs/fake.c:25-131 | after every run that replaces no last name, each row left has a name, a descriptor or a check to come |
| `Fakefs.NextKeepsAccountedIff` | fs/fake.c:79-131 | every stats row is named, held or about to be checked, and every step keeps that except exactly one that replaces every name of an inode that is neither held nor about to be checked |
| `Fakefs.RenameLeaksRow` | fs/fake.c:120-131 | one file renamed over another, whose row stays until the next mount |
| `FakefsInodes.GetRefines` | fs/inode.c:25-43 | a counted reference on the one record of an inode, found or made, is the model's acquisition, whatever records other mounts have in the table |
| `FakefsInodes.PutRefines` | fs/inode.c:66-81 | a reference less, and the record freed with the last, is the model's release; no other descriptor is left pointing at a freed record |
| `FakefsInodes.Mount.constructor` | fs/inode.c:7-9 | an empty table refines the initial state |
| `FakefsInodes.Mount.GetData` | fs/inode.c:13-23 | the search of one chain finds a record if and only if the whole table has one |
| `FakefsInodes.Mount.GetUnlocked` | fs/inode.c:25-43 | one more reference, on a new record if there was none; chains and uniqueness kept |
| `FakefsInodes.Mount.Release` | fs/inode.c:66-81 | one reference less; with the last the record leaves its chain, and an unnamed row goes |
| `FakefsInodes.Mount.OpenPath` | fs/fake.c:25-52 | the transaction of an open or a creation is the step of the model |
| `FakefsInodes.Mount.AcquireInode` | fs/generic.c:55-63 | fstat and the inode under one lock are a step, and fail if the row went in between |
| `FakefsInodes.Mount.CloseFd` | fs/inode.c:66-81 | closing a descriptor, through its inode pointer, is a step |
| `FakefsInodes.Mount.CheckInode` | fs/inode.c:52-58 | a missing record means that nothing holds the inode, so the check is a step |
| `FakefsInodes.Mount.RenamePath` | fs/fake.c:120-131 | renaming is a step that moves the subtree, or is rolled back if the real file system refuses |
| `FakefsInodes.Mount.SetAttr` | fs/fake.c:263-274 | the row of an open descriptor exists, and is replaced |
| `Tlb.StepKeepsInv` | emu/tlb.c:4-70 | every step keeps each tagged entry equal to the translation as long as the change counters agree |
| `Tlb.RunStaysCoherent` | emu/tlb.c:4-70 | in every run with page-table changes, after a refresh every tagged entry gives the page table's pointer |
| `Tlb.FetchIsReadBytes` | emu/tlb.h:43-51 | one pointer serves as many bytes as byte-wise translation within a page |
| `Tlb.BlitIsWriteBytes` | emu/tlb.h:64-72 | so it does for stores |
| `Tlb.ReadBytesSplit` | emu/tlb.c:23-35 | a read can be split anywhere, also where the address wraps |
| `Tlb.WriteBytesSplit` | emu/tlb.c:37-49 | so can a store |
| `Tlb.WriteHits` | emu/tlb.c:37-49 | of the bytes of a store that land on one host byte the last stays |
| `Tlb.WriteMisses` | emu/tlb.c:37-49 | a host byte that no byte of a store lands on is left alone |
| `Tlb.ReadBackIff` | emu/tlb.h:43-72 | a read of what was just stored returns it if and only if bytes that share a host byte agree |
| `Tlb.ReadElsewhere` | emu/tlb.h:43-72 | a read that shares no host byte with a store returns what it returned before |
| `Tlb.MissFills` | emu/tlb.c:51-70 | a translated miss fills its entry, for writing only after a write, so the next access hits |
| `Tlb.Cache.Flush` | emu/tlb.c:13-17 | the loop empties every entry and takes over the change counter |
| `Tlb.Cache.Refresh` | emu/tlb.c:4-11 | afterwards the cache is coherent with the given mmu |
| `Tlb.Cache.HandleMiss` | emu/tlb.c:51-70 | the translation, or a fault at the address; the entry filled; coherent even if translating changed the table |
| `Tlb.Cache.ReadPtr` | emu/tlb.h:33-41 | hit or miss, the page table's pointer or a fault |
| `Tlb.Cache.WritePtr` | emu/tlb.h:53-62 | hit or miss, a pointer only for pages translated for writing, and the page marked dirty |
| `Tlb.Cache.ReadCrossPage` | emu/tlb.c:23-35 | across pages, and around the top of memory, the bytes of byte-wise translation |
| `Tlb.Cache.Read` | emu/tlb.h:43-51 | any size up to a page reads the bytes of byte-wise translation, or faults on an unmapped page |
| `Tlb.Cache.WriteCrossPage` | emu/tlb.c:37-49 | across pages the stores of byte-wise translation, and none at all on a fault |
| `Tlb.Cache.Write` | emu/tlb.h:64-72 | any size up to a page stores as byte-wise translation, and nothing on a fault |
| `PathNormalize.CompsSplit` | fs/path.c:87-92 | the components of a path with a slash in it are those of its two sides |
| `PathNormalize.CompsOfJoin` | fs/path.c:55-62 | writing components out and splitting again gives them back |
| `PathNormalize.WalkAgain` | fs/path.c:87-93 | starting over walks a resolved directory again and arrives there |
| `PathNormalize.RewalkIsResolve` | fs/path.c:6-119 | from a resolved start directory, the code's walk equals component-wise resolution, errors included |
| `PathNormalize.SuccessIsResolve` | fs/path.c:6-119 | from a start directory without links, every success equals component-wise resolution |
| `PathNormalize.LinkedStartDiffers` | fs/path.c:83-93 | a tree and a start directory with a link where they differ |
| `PathNormalize.RewalkResult` | fs/path.c:6-119 | a success consists of names only, has no link left beyond the start directory (the last component aside when not following), and followed at most five |
| `PathNormalize.ResolveIdempotent` | fs/path.c:6-119 | normalizing a result again gives it back and follows no link |
| `PathNormalize.ResolveSplit` | fs/path.c:31-114 | resolving a path is entering the directory its front names and resolving the rest there, with the links counted on |
| `PathNormalize.Dots` | fs/path.c:31-50 | a dot stays, two dots go to the parent, or stay at the root |
| `PathNormalize.InAndOut` | fs/path.c:31-108 | into a directory and out again is no step at all |
| `PathNormalize.Names` | fs/path.c:53-108 | a name that is no link is added; on the way it must be a directory, and one that may be searched, else ENOTDIR or the error of the check |
| `PathNormalize.Links` | fs/path.c:65-95 | a link is replaced by its target, from the root or from its own directory; the sixth is ELOOP |
| `PathNormalize.ThroughFails` | fs/path.c:97-108 | a walk through something that is no directory, or may not be searched, fails with exactly that error, however it got there |
| `PathNormalize.Failures` | fs/path.c:65-108 | there is no other way to fail |
| `PathNormalize.SelfLinkLoops` | fs/path.c:65-95 | a link to itself gives ELOOP |
| `PathNormalize.TrailingSlashIff` | fs/path.c:65-108 | following links or not, a path is resolved as with a dot appended if and only if its slash is not dropped at the last name: a link or no directory when not following, a chain of links that ends at no directory and in no slash when following |
| `PathNormalize.SlashDropped` | fs/path.c:65-108 | a file with a slash behind it passes when not following, and a link to it when following |
| `PathNormalize.EatSlashes` | fs/path.c:27-28 | skips slashes and no component |
| `PathNormalize.PopComponent` | fs/path.c:40-45 | backing up to a slash removes the last component |
| `PathNormalize.CopyComponent` | fs/path.c:53-59 | appends one whole component |
| `PathNormalize.FollowLink` | fs/path.c:78-94 | the target read over the last component, and what is left of the path, start over |
| `PathNormalize.Normalize` | fs/path.c:6-119 | the character loops, the pops and the recursion compute the walk, its errors and its path |
| `PathNormalize.PathIsNormalized` | fs/path.c:145-156 | accepts exactly the path of its own components, with or without one slash at the end |
| `Mounts.CoversIsComponentPrefix` | fs/mount.c:32-35 | the test on characters is a prefix of whole components |
| `Mounts.FindIsBest` | fs/mount.c:26-39 | the first match is the most recent mount on the longest point that covers the path |
| `Mounts.BestIsUnique` | fs/mount.c:26-39 | there is only one such mount |
| `Mounts.InsertOrdered` | fs/mount.c:74-81 | insertion keeps longer points first and newer mounts before older |
| `Mounts.UmountUndoesMount` | fs/mount.c:53-110 | unmounting the point just mounted gives back the very list |
| `Mounts.MountThenUmount` | fs/mount.c:53-110 | the same as steps of a run |
| `Mounts.RunKeepsInv` | fs/mount.c:26-110 | in every run the order holds, every reference is counted, and no mount in use is removed |
| `Mounts.RunResolves` | fs/mount.c:26-39 | after every run that leaves a root mounted, a lookup gives the best mount |
| `Mounts.UmountRemoves` | fs/mount.c:84-110 | exactly the newest mount of the point goes if nobody refers to it, and nothing changes otherwise |
| `Mounts.MountAdds` | fs/mount.c:53-82 | one mount more, the newest on its point and referred to by nobody; none if the file system refuses |
| `Mounts.LookThenRelease` | fs/mount.c:26-51 | a lookup refers once more to the best mount, and releasing it puts everything back |
| `Mounts.RunBalances` | fs/mount.c:26-110 | over every run references taken and given back balance, and every mount has a number of its own |
| `Mounts.ReleasedAll` | fs/mount.c:26-110 | after a run that released as often as it looked up, nobody refers to any mount |
| `Mounts.MountTable.constructor` | fs/mount.c:193 | starts empty |
| `Mounts.MountTable.Find` | fs/mount.c:26-39 | the loop finds the best mount and takes a reference |
| `Mounts.MountTable.DoMount` | fs/mount.c:53-82 | inserts as specified, or nothing when the file system refuses |
| `Mounts.MountTable.DoUmount` | fs/mount.c:84-110 | EINVAL if and only if nothing is mounted on the point, EBUSY and no change if and only if the newest mount there is in use, else 0 and that mount gone |
| `Mounts.MountTable.ContainsMountPoint` | fs/generic.c:24-33 | true if and only if something is mounted at the path or below it |
| `Mounts.MountTable.FindAndTrim` | fs/generic.c:14-22 | the point and what is left in the buffer are together the path that was there |
| `Mounts.Trim` | fs/generic.c:16-20 | the in-place copy drops exactly the first characters of the text |
| `FdTable.RunClosesOnce` | fs/fd.c:28-268 | after every run of lock sections in which looked-up files and emptied slots are left alone, each file is either counted exactly by the slots of all tables and the outside references, and open; or closed once and referred to by nothing |
| `FdTable.RunMarksOccupied` | fs/fd.c:158-268 | a close-on-exec bit stands only on an occupied slot, in every table after every such run |
| `FdTable.NextKeepsInvIff` | fs/fd.c:151-268 | each section keeps the counts exact if and only if the file it retains still exists and the slot it fills is still empty |
| `FdTable.HeldIsUndisturbed` | fs/fd.c:244-268 | a looked-up file that some slot or reference still holds is there to be retained |
| `FdTable.DupRace` | fs/fd.c:244-251 | a reachable state of a shared table from which dup leaves a closed file in a slot |
| `FdTable.DupSections` | fs/fd.c:244-251 | left alone, the sections of dup make the whole call |
| `FdTable.LeastFree` | fs/fd.c:165-168 | the number allocated is free, and no smaller one from the start on is |
| `FdTable.InstallGives` | fs/fd.c:158-182 | the slot takes over the reference, or, at the limit, the reference is dropped |
| `FdTable.InstallMarks` | fs/fd.c:158-195 | the new descriptor has the close-on-exec bit asked for, and no other descriptor changes its file or its bit |
| `FdTable.DupMarks` | fs/fd.c:244-251 | a second descriptor for the same file, with the bit asked for, and no other changes |
| `FdTable.Dup3Marks` | fs/fd.c:253-268 | the target has the file and the bit asked for, whatever it held, and no other changes |
| `FdTable.DupOntoItselfIff` | fs/fd.c:253-272 | a descriptor duplicated onto itself keeps its file, and its bit if and only if that is the one asked for |
| `FdTable.ExecClosesMarked` | fs/fd.c:221-227 | at exec a descriptor goes if and only if its bit is set; the others stay |
| `FdTable.InstallThenExec` | fs/fd.c:158-227 | so one installed with the bit goes at the next exec, and one without it stays |
| `FdTable.ShareThenRelease` | kernel/fork.c:69-77 | a table shared and released is as before |
| `FdTable.LastRelease` | fs/fd.c:77-89 | the last user takes the table with it, and closes exactly the files that only it referred to |
| `FdTable.NewTables` | fs/fd.c:57-134 | a new table has empty slots and one user, and a copy the files and bits of the original |
| `FdTable.GrowingMakesRoom` | fs/fd.c:91-143 | growing reaches the number asked for if that is below the limit, else nothing changes; no slot or bit changes |
| `FdTable.RunWithinLimit` | fs/fd.c:57-268 | over every run under a fixed limit no table gets longer than it, so no descriptor lies at or beyond it |
| `FdTable.DupThenClose` | fs/fd.c:197-251 | duplicating and closing restores every slot, count and closing |
| `FdTable.BumpCounts` | fs/fd.c:128-130 | copying a table counts each file once more per slot |
| `FdTable.CloseMarkedResult` | fs/fd.c:221-227 | exec empties exactly the marked slots, and no other table changes |
| `FdTable.CloseAllResult` | fs/fd.c:77-89 | the last release empties every slot, and no other table changes |
| `FdTable.Descriptors.constructor` | fs/fd.c:57-72 | starts with nothing open |
| `FdTable.Descriptors.FdClose` | fs/fd.c:33-53 | one reference less, and the close operation at zero |
| `FdTable.Descriptors.FdtableClose` | fs/fd.c:197-207 | the specified closing, or EBADF |
| `FdTable.Descriptors.Expand` | fs/fd.c:91-143 | grows the table with empty slots, or EMFILE |
| `FdTable.Descriptors.FreeNumber` | fs/fd.c:158-168 | the search loop finds the least free number unless it meets the limit first |
| `FdTable.Descriptors.FInstall` | fs/fd.c:158-195 | the least free number, which then holds the file with the close-on-exec bit asked for, or EMFILE exactly when that number is beyond the limit |
| `FdTable.Descriptors.SysDup` | fs/fd.c:244-251 | with no other thread in between: the least free number, EMFILE at the limit, or EBADF |
| `FdTable.Descriptors.SysDup3` | fs/fd.c:253-268 | with no other thread in between: the target, whatever it held, holds the file afterwards with the close-on-exec bit asked for, also when it is the same descriptor; EBADF and EMFILE change nothing |
| `FdTable.Descriptors.DoCloexec` | fs/fd.c:221-227 | the loop closes exactly the marked slots |
| `FdTable.Descriptors.FdtableCopy` | fs/fd.c:119-134 | the loop counts every slot, and the new table has the same contents |
| `FdTable.Descriptors.FdtableRelease` | fs/fd.c:77-89 | the last user closes every slot |
| `Tty.EditRefines` | fs/tty.c:282-354 | editing the flagged buffer is editing the line being typed; finished lines are out of reach |
| `Tty.EditAllRefines` | fs/tty.c:282-354 | the buffer of any input is what the line editor gives |
| `Tty.EditAcross` | fs/tty.c:298-320 | erase and kill never reach what was read |
| `Tty.TypingOrdinary` | fs/tty.c:282-354 | characters that are neither line ends nor control characters are added to the line as typed |
| `Tty.TypingLineEnd` | fs/tty.c:283-335 | a newline, a carriage return under ICRNL and the end-of-line character end the line and belong to it |
| `Tty.TypingIgnored` | fs/tty.c:283-293 | IGNCR drops a carriage return that ICRNL does not translate, and a newline that INLCR does |
| `Tty.TypingReturn` | fs/tty.c:283-293 | otherwise a carriage return, typed or made of a newline, is an ordinary character |
| `Tty.TypingControls` | fs/tty.c:298-335 | erase takes back one character of the line, kill all, and end-of-file ends the line |
| `Tty.LineReadsBack` | fs/tty.c:282-538 | an ordinary line and its end, typed into an empty terminal, is what a read then returns |
| `Tty.EditedLineReadsBack` | fs/tty.c:282-538 | with an erase or a kill in it, the line read is the one without what they took back |
| `Tty.EofReadsBack` | fs/tty.c:321-538 | an end-of-file hands on the line without itself, and nothing if nothing was typed |
| `Tty.ReadIsLinePrefix` | fs/tty.c:484-502 | a read returns bytes of the first finished line only, from its start, and as many as were asked for or all there are |
| `Tty.GoneBytes` | fs/tty.c:497-538 | what a read takes away is what it returns and at most an end-of-file |
| `Tty.NextKeepsInv` | fs/tty.c:282-538 | every step keeps the conservation invariant |
| `Tty.RunConserves` | fs/tty.c:227-538 | over every run, bytes returned followed by bytes buffered are the bytes the line editor makes of the keys typed in it, and the buffer stays within its size |
| `Tty.RunRecords` | fs/tty.c:227-538 | a run accepts its keys in order, and each of its reads takes at least one character or end-of-file |
| `Tty.ReadingReturns` | fs/tty.c:484-538 | with lines waiting a read can go on, and adds to the output the first of them, cut to the size |
| `Tty.LosesEofIff` | fs/tty.c:497-538 | exactly when a read takes an end-of-file that belongs to the next line |
| `Tty.EofLost` | fs/tty.c:497-538 | a line followed by an end-of-file: the read of the line takes both |
| `Tty.Terminal.constructor` | fs/tty.c:29-61 | starts empty |
| `Tty.Terminal.PushChar` | fs/tty.c:227-237 | appends a flagged character, or EAGAIN when full |
| `Tty.Terminal.EraseBack` | fs/tty.c:309-319 | the loop drops up to so many characters, none from a flag on |
| `Tty.Terminal.EraseOrKill` | fs/tty.c:298-320 | erase drops one character of the line, kill all of them |
| `Tty.Terminal.TypeChar` | fs/tty.c:283-346 | one character, translated and classified, edits as specified; EAGAIN only for a full buffer, which it leaves |
| `Tty.Terminal.Input` | fs/tty.c:282-354 | the loop edits with exactly the characters it reports as taken, and takes all that fit |
| `Tty.Terminal.CanonSizeOf` | fs/tty.c:405-410 | the size of the first line, if there is one |
| `Tty.Terminal.ReadIntoBuf` | fs/tty.c:396-403 | takes the first characters and moves the rest, with their flags, to the front |
| `Tty.Terminal.LineText` | fs/tty.c:484-502 | how much of the line is text |
| `Tty.Terminal.DropEof` | fs/tty.c:534-538 | removes an end-of-file at the front and nothing else |
| `Tty.Terminal.Read` | fs/tty.c:484-538 | the bytes and the buffer of a read as specified, EAGAIN without a line |
| `Tty.Terminal.InputThenRead` | fs/tty.c:267-538 | the two calls one after the other: an input that makes one line is read back as `Tty.LineReadsBack` and its companions say, and the buffer is empty again |
| `ExecStack.PointersDenote` | kernel/exec.c:369-386 | each pointer of a table denotes the string of its place |
| `ExecStack.Place` | kernel/exec.c:298-359 | the addresses: strings from the top down, the stack pointer a multiple of 16, and the tables ending at or less than 16 bytes below the random bytes |
| `ExecStack.StackReads` | kernel/exec.c:298-397 | the tables and strings together read as argc, argv, NULL, envp, NULL and the auxiliary vector of section 2.3.1 of the System V i386 psABI, whose entries point at the file name, the platform and the random bytes |
| `ExecStack.AuxFinds` | kernel/exec.c:334-356 | a program that looks up an entry of the auxiliary vector by its type finds the random bytes, the file name, the platform, the headers, the base, the entry point and the vdso |
| `ExecStack.AuxConstants` | kernel/exec.c:334-356 | page size, header size and clock tick, and zero for the ids, the flags and the capabilities |
| `ExecStack.AuxEnds` | kernel/exec.c:334-356 | the vector ends in the null entry, its only one |
| `ExecStack.ArgsSize` | kernel/exec.c:433-442 | the loop over the flat argument buffer gives the size of all strings and the last NUL |
| `ExecStack.Guest.WriteString` | kernel/user.c:83-97 | the loop writes the string and its NUL |
| `ExecStack.Guest.CopyString` | kernel/exec.c:448-453 | the string right below the stack pointer |
| `ExecStack.Guest.ArgsCopy` | kernel/exec.c:455-461 | all strings right below the stack pointer |
| `ExecStack.Guest.UserStrLen` | kernel/exec.c:463-472 | the length of the string at an address |
| `ExecStack.Guest.PutPointers` | kernel/exec.c:369-386 | the loop writes the address of each string and nothing outside the table |
| `ExecStack.Guest.PutTable` | kernel/exec.c:369-387 | the table ends in a null pointer that is there because the memory is fresh |
| `ExecStack.Guest.PutTables` | kernel/exec.c:361-394 | argc, the two tables and the auxiliary vector, and nothing else changed |
| `ExecStack.Guest.PutStrings` | kernel/exec.c:303-327 | every string and the random bytes in place, and all below still zero |
| `ExecStack.Guest.Build` | kernel/exec.c:298-397 | the whole construction gives a correct initial stack and overwrites no string |

## Left out

- Float80Division.DivCorrectIff: a quotient below the normal range whose remainder does not fit is not covered; the quotient is then too small, and whether that shows depends on how much of it is rounded away.
- f80_sqrt, f80_log2, f80_mod, f80_scale and f80_xtract, the FPU registers, MMX and vector instructions.
- Memory exhaustion, the robust futex list, and timeouts as durations: a timeout is a step that may come at any time.
- Blocking lock requests and deadlock detection: a request that would block answers EAGAIN, as the code does.
- FakefsPaths.RenameMovesSubtree: one path under the other is excluded; the real file system refuses that rename, and the transaction is rolled back.
- FakefsPaths.PathRename: promises nothing about the table in that case, which does not outlive the transaction.
- SQLite is two maps with atomic transactions; rebuilding and migrating the database.
- Tlb.Cache.HandleMiss: translating is a parameter that may change the page table; the copying of copy-on-write pages is not modelled.
- PathNormalize.Normalize: the output buffer is a string without a size limit, so ENAMETOOLONG and the in-place aspect of the buffer are not modelled.
- path_next_component, and path_normalize's choice of the start directory.
- The source, information and flags of a mount, and the mount and umount system calls around do_mount and do_umount.
- FdTable.Descriptors.FdtableClose: the table is the current one, so that its own size is the bound; the error of a close operation, record locks dropped on close and poll sets are not modelled beyond the count of closings.
- FdTable.Descriptors.SysDup: is one thread's view; what other threads can do between its sections is in `FdTable.NextKeepsInvIff`.
- FdTable.Descriptors.SysDup3: the same; two threads that resize a table at once, which dup3 does without the lock, are not modelled.
- The fcntl command dispatch, status flags and a failing fdtable_resize.
- Tty.Terminal.TypeChar: signal characters, which flush the buffer, and echo are not modelled.
- Tty.Terminal.Input: a blocking write is a call that stops and is made again.
- Non-canonical input, pseudo terminals, packet mode and job control.
- ExecStack.Guest.Build: lists that do not fit, and faulting writes, are excluded; the memory is a zero-initialised byte map, and the ELF mapping is not modelled.
- Scripts with an interpreter line, and the reading of argv and envp from the calling process.
- Sockets, poll, proc and tmp file systems, the instruction decoder, and the app.
