# CRuby's big integers, shared arrays and fibers, in Dafny

This project models three parts of the CRuby interpreter and proves what they are there for.

**Big integers (`bignum.c`).** A number is a range of digits of an array, least significant first. The digit width is
a symbolic constant (any multiple of eight from 16 on), so every result holds for 16, 32 and 64 bit digits alike, and
double-digit arithmetic is checked against overflow at every step. Digit arrays are real arrays, updated in place, and
operands may lie over each other where the code allows it.

* Multiplication: `bary_mul` stores exactly the product through every path of its dispatch: one digit, schoolbook,
  squaring, trimming of zeros, sparse operands, balancing, Karatsuba and Toom-3, each of them recursive into the
  others. All paths leave the digits of schoolbook multiplication.
* Division: quotient times divisor plus remainder is the dividend and the remainder is smaller, with the trial digit
  off by at most two for every quotient digit. The integer square root by Newton's method ends at the floor of the root
  if and only if its first estimate is not below it.
* Radix conversion: the recursive printer writes a minus sign if and only if the number is negative, and then the
  characters of digits that weigh the magnitude, with no zero too many or too few. The two readers give what the digits of
  a string weigh, in small letters or capitals, so a printed number reads back as itself.
* Bit operations: `&`, `|` and `^` of two big integers, or of one and a machine word, act on every bit of the infinite
  two's complement, and obey the laws of arithmetic: `(x & y) + (x | y) == x + y` and `x ^ y == (x | y) - (x & y)`.
* Packing into words: for every word size, word order, byte order and number of nail bits the buffer holds the number
  modulo its size, and the returned code is the documented one. Unpacking gives the integer that the flags say the buffer
  stands for. In both directions the shortcuts agree with the generic loop, and without overflow the number comes back.

**Shared arrays (`array.c`).** Arrays are embedded, own a buffer, or show a window of the buffer of a shared root, which
may be hidden. The reference count of a root is never less than the number of arrays that share it, a buffer is written
only by an array nobody else can see it through, and so every script of array operations shows what it would show if each
array were an independent list, errors included. The same file's `combination` and `permutation` yield every choice
exactly once and in lexicographic order, as many as their size methods say, and `sample` maps the random draws one to one
to the choices.

**Fibers (`cont.c`).** Resume, yield, transfer, raise and termination keep the links between fibers consistent over every
run. What a fiber may do next is stated over the history of control transfers alone, and each operation is proved to
succeed exactly when that history permits it. A machine that keeps only the history predicts every answer, every error and
every field of every fiber for every script (`FiberRuns.Run`). In its histories the links are inverse and acyclic, and
control comes back only in the way that fits how it was given away (`FiberRuns.RunTheorems`).

Where the code and its documentation disagree, or the code does not do what it means to, the model follows the code:

* The documentation of `Fiber#transfer` (cont.c:2609-2613) says that a fiber that transferred can only be transferred back
  to. `FiberHistory.TransferredNotBack` is a run in which it gets control otherwise, and `FiberHistory.TransferReturn` says
  when: if and only if a fiber ends that nobody resumed (cont.c:2192-2201).
* With no words and a sign to extend, two shortcuts of `bary_unpack_internal` look at memory before the buffer or the
  digits (bignum.c:1153 and 1200). `UnpackShortcuts.NothingToExtend` has an input for each, `UnpackShortcuts.BaryUnpack`
  says exactly when it happens, and that the result does not depend on what is found there.

## Layout

| files | contents |
|---|---|
| `Digits`, `BaryAdd`, `BarySigned`, `BaryShift` | digit ranges and their values, addition, subtraction, complement, shifts |
| `BaryMulBasic`, `BarySquare`, `BaryMulPre`, `KaratsubaSteps`, `Toom3Steps`, `BaryMul` | multiplication |
| `BaryDivSingle`, `BaryMulSub`, `BaryDiv`, `BigIsqrt` | division and square root |
| `RadixString`, `RadixPower`, `BigToStr`, `StrToBig` | numerals, printing and reading |
| `TwosComplement`, `BigLogic`, `BigLogicLong` | bit operations |
| `PackFormat`, `IntegerPack`, `PackBytes`, `PackShortcuts`, `PackDigits`, `IntegerUnpack`, `UnpackShortcuts` | packing into words and unpacking |
| `SharingInvariant`, `SharedArray`, `ArrayRuns` | copy-on-write arrays |
| `Combinations`, `Permutations`, `Sampler` | enumeration and sampling |
| `FiberHistory`, `FiberControl`, `FiberRuns` | histories of control transfers, the fibers that produce them, and scripts |
| `Wrappers` | what all parts share |

`dafny verify dfyconfig.toml` checks the whole project.

## Model

| member | source | states |
|---|---|---|
| `BaryAdd.BaryAddc` | bignum.c:1396-1440 | sum plus carry out weighs exactly x + y + carry in, for any lengths and with z laid over either operand; nothing outside z changes |
| `BaryAdd.BaryAdd` | bignum.c:1442-1446 | the same without a carry in |
| `BaryAdd.BarySubb` | bignum.c:1333-1382 | difference minus borrow out weighs exactly x - y - borrow in, with the same aliasing and frame |
| `BaryAdd.BarySub` | bignum.c:1384-1388 | the same without a borrow in |
| `BaryAdd.BarySubOne` | bignum.c:1390-1394 | one is taken away, and a borrow comes out only of zero |
| `BaryAdd.BaryAddOne` | bignum.c:1448-1460 | one is added, and the carry out makes up for what the digits cannot hold |
| `BaryAdd.Bary2comp` | bignum.c:459-477 | the number becomes its negative modulo B^n; the answer is 1 if and only if it was zero |
| `BarySigned.AbsSub` | bignum.c:1784-1787 | subtract, and complement on a borrow: the distance of x and y, with the flag set exactly when x < y |
| `BarySigned.SignedSub` | bignum.c:2157-2167 | sign-and-magnitude subtraction through add, subtract and complement gives the signed difference |
| `BaryMulBasic.BaryMulAdd1xN` | bignum.c:1474-1507 | z grows by digit times y, with the carry out accounted for |
| `BaryMulBasic.BaryMulNormal` | bignum.c:1550-1561 | schoolbook multiplication stores exactly the product |
| `BarySquare.ColumnFits` | bignum.c:1600-1610 | in the doubled cross products no double digit overflows, although twice a digit needs one bit more than a digit |
| `BarySquare.DiagonalFits` | bignum.c:1597-1599 | adding a squared digit to a digit does not overflow a double digit |
| `BarySquare.LastCarry` | bignum.c:1620-1629 | the last carry of a row fits in the digit above without another carry |
| `BarySquare.BarySqFast` | bignum.c:1578-1630 | squaring by doubled cross products stores exactly x * x |
| `BaryShift.BarySmallLshift` | bignum.c:408-421 | shifted digits plus the bits shifted out weigh x * 2^shift, also in place |
| `BaryShift.BarySmallRshift` | bignum.c:423-438 | shifted digits times 2^shift plus the bits dropped weigh x plus the bits taken from the digit above, also in place |
| `KaratsubaSteps.FoldLow` | bignum.c:1822-1827 | the additions that fold x0*y0 into the middle, with the value each of the two carries stands for |
| `KaratsubaSteps.FoldHigh` | bignum.c:1839-1843 | the additions that fold x1*y1 into the middle, with the value of their carry, also when the top part is short |
| `KaratsubaSteps.AddMiddle` | bignum.c:1847-1859 | adding the saved half and the two carries changes z by exactly their weight, up to multiples of B^n |
| `KaratsubaSteps.AddTop` | bignum.c:1854-1859 | a net carry of -1 to 2 is applied to the top quarter with its weight |
| `KaratsubaSteps.MiddleTerm` | bignum.c:1760-1769 | the identity behind the three products, for all integers |
| `BaryMul.KaratsubaIdentity` | bignum.c:1760-1769 | the same identity in terms of digit shifts |
| `BaryMul.MiddleMagnitude` | bignum.c:1780-1804 | the product of the distances of x0 and x1 and of y0 and y1 is left in the middle of z, and the sign flag tells whether it is to be subtracted |
| `BaryMul.KaratsubaLow` | bignum.c:1808-1831 | after the low product the saved half, the carries and the borrow together weigh x0*y0 - (x0-x1)*(y0-y1) |
| `BaryMul.KaratsubaHigh` | bignum.c:1835-1859 | after the high product z weighs what it did plus x1*y1 at both places plus the saved half and carries |
| `BaryMul.KaratsubaEven` | bignum.c:1745-1859 | for an even split z is exactly the product |
| `BaryMul.Karatsuba` | bignum.c:1715-1882 | for odd and even lengths, squares included, z is exactly the product |
| `Toom3Steps.Evaluate` | bignum.c:2047-2079 | the three evaluations are the values of the polynomial at 1, -1 and -2, signs included, in n+1 digits |
| `Toom3Steps.SubThird` | bignum.c:2156-2168 | a signed difference that is a multiple of three is divided by three exactly |
| `Toom3Steps.SubHalf` | bignum.c:2170-2182 | a signed difference that is even is halved exactly |
| `Toom3Steps.AddTwice` | bignum.c:2210-2218 | twice a number is added to a sign-and-magnitude number without overflow |
| `Toom3Steps.ThirdCoefficient` | bignum.c:2197-2218 | the interpolation step for the third coefficient is exact |
| `Toom3Steps.Interpolate` | bignum.c:2156-2250 | from the five values at 0, 1, -1, -2 and infinity the interpolation recovers the coefficients exactly, with their signs |
| `Toom3Steps.Recompose` | bignum.c:2256-2271 | the coefficients, each with its sign, are added at their places to exactly the value of the polynomial at the base |
| `Toom3Steps.Combine` | bignum.c:2146-2271 | interpolation and recomposition together |
| `Toom3Steps.StoreTrunc` | bignum.c:2273-2275 | cutting leading zeros and padding again keeps the number |
| `Toom3Steps.PolynomialAt` | bignum.c:2028-2036 | the products of the values at 1, -1 and -2 are the values of the product polynomial there |
| `Toom3Steps.PolynomialAtBase` | bignum.c:2013-2026 | the product polynomial at the base is the product of the numbers |
| `Toom3Steps.CoefficientBounds` | bignum.c:1951-1959 | every coefficient is below ten times B^2n, so the digits reserved suffice |
| `BaryMul.Toom3Points` | bignum.c:2120-2144 | the five point products |
| `BaryMul.Toom3Product` | bignum.c:2120-2271 | from the point products and their signs to exactly the product |
| `BaryMul.Toom3` | bignum.c:1897-2279 | Toom-3 multiplication stores exactly the product, squares included |
| `BaryMulPre.BaryTrunc` | bignum.c:133-136 | cutting leading zero digits keeps the number and leaves a non-zero top digit, and only zeros were cut |
| `BaryMulPre.TrimZeros` | bignum.c:2390-2404 | what is left between the zeros at both ends, shifted back, is the number; both end digits are non-zero |
| `BaryMulPre.MulSmall` | bignum.c:2437-2460 | the shortcuts for a factor of at most one digit (0, 1, a power of two) store the product |
| `BaryMul.BaryShortMul` | bignum.c:2347-2359 | exactly the product, by the one-digit or the schoolbook way |
| `BaryMul.MulFallback` | bignum.c:2497-2503 | exactly the product, by squaring when the operands are the same digits |
| `BaryMul.BarySparseP` | bignum.c:2362-2372 | true exactly if at least two of the three digits sampled are zero |
| `BaryMul.MulSingle` | bignum.c:1462-1472 | the double-digit product of two digits, the rest of z cleared |
| `BaryMul.MulShifted` | bignum.c:2422-2460 | the product of the trimmed factors, shifted by the zeros trimmed |
| `BaryMul.MulOrdered` | bignum.c:2428-2460 | the shorter factor first, or a shortcut: still the product |
| `BaryMul.MulBalance` | bignum.c:1643-1701 | multiplying a long factor piece by piece, each piece added over the overlap, stores the product |
| `BaryMul.MulStart` | bignum.c:2506-2538 | karatsuba_start and toom3_start: trim, then branch; the product for all operands |
| `BaryMul.KaratsubaBranch` | bignum.c:2472-2504 | whatever the sizes and the sparseness choose, the product |
| `BaryMul.MulBranch` | bignum.c:2515-2529 | whichever of balance, Toom-3 and the Karatsuba branch is chosen, the product |
| `BaryMul.BaryMul` | bignum.c:2540-2564 | for all operands z is exactly x * y, through every threshold and recursion |
| `BaryMul.SameAsSchoolbook` | bignum.c:2540-2564 | the fast multiplication and the schoolbook one leave the same digits |
| `BaryDivSingle.BigDivRemSingle1` | bignum.c:2615-2637 | quotient times divisor plus remainder is the dividend with the higher digit in front, remainder below divisor, also in place and through the power-of-two shortcut |
| `BaryDivSingle.BigDivRemSingle` | bignum.c:2639-2643 | the same without a higher digit |
| `BaryMulSub.BigDivRemMulSub` | bignum.c:1509-1534 | the digits and the signed number returned together weigh z - digit * y |
| `BaryMulSub.BaryMulSub1xN` | bignum.c:1536-1548 | z shrinks by digit times y, with the borrow accounted for |
| `BaryDiv.TrialUpper` | bignum.c:2587-2592 | the trial digit from the leading digits is never too small |
| `BaryDiv.TrialLower` | bignum.c:2587-2592 | the trial digit overshoots by less than one borrow |
| `BaryDiv.TrialTwo` | bignum.c:2587-2599 | with a normalized divisor the trial digit exceeds the quotient digit by at most two |
| `BaryDiv.TrialRange` | bignum.c:2587-2599 | the three bounds for the trial digit as computed, the all-ones case included |
| `BaryDiv.BorrowRange` | bignum.c:2590-2593 | after multiply-and-subtract the number left over is 0 or -1 |
| `BaryDiv.AddBack` | bignum.c:2593-2599 | adding the divisor back until the borrow is gone ends with the true quotient digit and a remainder below the divisor |
| `BaryDiv.AtMostTwo` | bignum.c:2593-2599 | the number of additions is bounded by how far the trial digit was off |
| `BaryDiv.DivStep` | bignum.c:2587-2602 | one round gives the quotient digit and remainder; with a normalized divisor the add-back runs at most twice |
| `BaryDiv.DivDigitAt` | bignum.c:2582-2603 | one round keeps quotient so far times divisor plus what is left equal to the dividend, with at most two add-backs if the divisor is normalized |
| `BaryDiv.BigDivRem1` | bignum.c:2572-2605 | in place, the high digits become the quotient and the low digits the remainder; for every quotient digit at most two add-backs if the divisor is normalized |
| `BaryDiv.DivOneDigit` | bignum.c:2657-2662 | the restoring division for a one-digit divisor |
| `BaryDiv.LowZeros` | bignum.c:2655-2655 | the divisor is what is left of it, shifted by the zero digits skipped |
| `BaryDiv.BigDivRemRestoring` | bignum.c:2645-2682 | the same with trailing zero digits of the divisor skipped |
| `BaryDiv.Normalized` | bignum.c:2698-2699 | shifting by the leading zeros of the top digit makes it at least B/2 and loses no bit |
| `BaryDiv.NormalizeDivisor` | bignum.c:2698-2711 | the divisor is multiplied by 2^shift and its top digit is at least B/2 |
| `BaryDiv.NormalizeDividend` | bignum.c:2700-2719 | the dividend is multiplied by 2^shift in one digit more, in the caller's quotient buffer or in a new one |
| `BaryDiv.ShiftCancels` | bignum.c:2725-2731 | dividing the two shifted numbers gives the same quotient and the shifted remainder |
| `BaryDiv.NormalizeBoth` | bignum.c:2698-2723 | both shifted, in the buffers passed or in new ones, without one overwriting the other |
| `BaryDiv.DeliverRemainder` | bignum.c:2727-2733 | the remainder is shifted back exactly |
| `BaryDiv.DeliverBoth` | bignum.c:2727-2739 | remainder, then quotient, reach their buffers, also when the quotient lies in its own buffer already |
| `BaryDiv.BaryDivModNormal` | bignum.c:2684-2743 | q * y + r = x with r < y, and never more than two add-backs for a digit, for every combination of buffers the caller passes or leaves out, also when the buffers serve as scratch or lie in one array |
| `BaryDiv.SmallDividend` | bignum.c:2889-2893 | the length and top-digit test implies that x is below y |
| `BaryDiv.DivModSmall` | bignum.c:2883-2893 | a dividend below the divisor is the remainder |
| `BaryDiv.DivModOneDigit` | bignum.c:2894-2899 | a divisor of one digit |
| `BaryDiv.DivModDouble` | bignum.c:2900-2911 | dividend and divisor of two digits |
| `BaryDiv.BaryDivMod` | bignum.c:2872-2915 | a zero divisor is refused, exactly then, with nothing changed; otherwise q * y + r = x and r < y, with results and operands in any places that do not overlap |
| `BigIsqrt.BaryCmp` | bignum.c:388-406 | the sign tells the order of the two numbers, whatever leading zeros they have |
| `BigIsqrt.NewtonStep` | bignum.c:6927-6936 | while the quotient is smaller than the estimate, the next estimate is smaller and still not below the root |
| `BigIsqrt.NewtonEnd` | bignum.c:6927-6929 | when the quotient is not smaller, an estimate not below the root is the root |
| `BigIsqrt.NewtonBelow` | bignum.c:6927-6929 | an estimate below the root ends the loop at once, and is not the root |
| `BigIsqrt.EstimateTop` | bignum.c:6921-6929 | an estimate not below the root fills its digits |
| `BigIsqrt.Average` | bignum.c:6932-6934 | add and shift right by one: the mean, rounded down |
| `BigIsqrt.Divide` | bignum.c:6927-6929 | the quotient of n by the estimate, and whether it is smaller |
| `BigIsqrt.BigIsqrt` | bignum.c:6904-6940 | from any estimate the loop ends with the floor of the square root if and only if the estimate is not below it |
| `BigIsqrt.FirstEstimate` | numeric.c:5896-5899 | the mean of a power of two and its quotient fits into a digit and is not below the root |
| `BigIsqrt.DblIsqrt` | numeric.c:5891-5904 | for numbers of up to two digits the integer loop ends with the floor of the square root |
| `BigIsqrt.RootUnique` | bignum.c:6904-6940 | at most one number is the floor of the square root |
| `FiberControl.Thread.constructor` | cont.c:2116-2133 | a thread starts with a running root fiber, nothing else, and an empty history |
| `FiberControl.Thread.NewFiber` | cont.c:1797-1826 | a new fiber is unstarted and linked to nobody; the invariant holds |
| `FiberControl.Thread.FiberStore` | cont.c:2212-2236 | the target becomes the running fiber; the one left is suspended, or stays terminated |
| `FiberControl.Thread.ReturnFiber` | cont.c:2176-2203 | control goes back to the fiber that resumed this one and the link is undone; without one, the call fails on yield, and on termination gives the end of the chain of resumes that starts at the root |
| `FiberControl.Thread.SearchResuming` | cont.c:2192-2201 | following the resuming links from the root ends, at a fiber that is not the dying one |
| `FiberControl.Thread.FiberSwitch` | cont.c:2238-2328 | the outcome by status of target and caller; after a switch exactly the links, flags, statuses and the blocking count that the kind of switch calls for; after an error nothing has changed |
| `FiberControl.Thread.Resume` | cont.c:2414-2442 | succeeds exactly on a fiber that has not started (unless an exception is to be raised in it) or has yielded; each refusal is the one its history calls for; the invariant holds afterwards |
| `FiberControl.Thread.Yield` | cont.c:2456-2460 | succeeds exactly if somebody resumed the current fiber, and gives control to that fiber |
| `FiberControl.Thread.Leave` | cont.c:2238-2328 | giving control back after the links are undone: the invariant holds and the history has one event more |
| `FiberControl.Thread.Transfer` | cont.c:2676-2688 | succeeds exactly on a fiber that has not started, has transferred, or is the current one; refused on a resuming, a yielding and a dead fiber |
| `FiberControl.Thread.Raise` | cont.c:2712-2726 | a yielding fiber is resumed and a transferring one transferred to with the exception; refused on an unborn, the current, a resuming and a dead fiber |
| `FiberControl.Thread.Close` | cont.c:2386-2390 | only the status changes, to terminated |
| `FiberControl.Thread.Terminate` | cont.c:2392-2412 | always finds a live fiber to return to: the one that resumed it, else one that had transferred; the fallback to the root because the target is dead never happens |
| `FiberControl.ResumeExactly` | cont.c:2414-2442 | in every legal history a resume switches if and only if it is permitted there, and with an exception if and only if the fiber has started as well |
| `FiberControl.TransferExactly` | cont.c:2676-2688 | in every legal history a transfer switches if and only if it is permitted there |
| `FiberControl.RaiseExactly` | cont.c:2712-2726 | raising switches if and only if the fiber has started and a resume (after a yield) or a transfer (otherwise) is permitted |
| `FiberControl.LeaveExactly` | cont.c:2176-2203 | a yield is permitted if and only if somebody resumed the current fiber, an end if and only if it is not the root, each to one fiber only |
| `FiberControl.ResumeRefused` | cont.c:2414-2442 | for each of the six refusals, exactly when it is the answer |
| `FiberControl.TransferRefused` | cont.c:2676-2688 | for each refusal of a transfer, and for the return at once, exactly when it is the answer |
| `FiberControl.RaiseRefused` | cont.c:2712-2726 | for each refusal of a raise, exactly when it is the answer |
| `FiberControl.LinkInvariants` | cont.c:241-257 | in every valid state prev and resuming_fiber are inverse, only the current fiber runs, the current fiber resumes nobody and is not yielding, a yielding fiber is suspended and unlinked, unstarted and dead fibers are unlinked, and the root is never resumed, yielding or dead |
| `FiberRuns.RunLegal` | cont.c:2176-2460 | the machine that only keeps the history records nothing but permitted events, whatever the script |
| `FiberRuns.RunTheorems` | cont.c:2176-2460 | in the history of every script, at every time: resuming and being resumed are inverse, the links lead nobody back to itself, and control comes back only in the way that fits how it was given away |
| `FiberRuns.Fields` | cont.c:241-257 | status, flag and both links of every fiber are those the history says |
| `FiberRuns.Step` | cont.c:2176-2460 | one command: the thread answers what the machine answers, and does what it does |
| `FiberRuns.Run` | cont.c:2176-2460 | every script of creations, resumes, yields, transfers, raises and terminations: every answer and error is the one that follows from the history alone, the thread goes through that history, and every field of every fiber is what it says |
| `FiberHistory.LegalNext` | cont.c:2601-2616 | a permitted step keeps a history legal |
| `FiberHistory.RunningIsCurrent` | cont.c:228-239 | in every legal history exactly the current fiber is running |
| `FiberHistory.LinksInverse` | cont.c:241-257 | in every legal history f is resuming g exactly if g was last resumed by f |
| `FiberHistory.RootPlace` | cont.c:2456-2460 | the root never yields, ends or is resumed |
| `FiberHistory.ChainEndIdle` | cont.c:2192-2201 | the chain of resumes from the root ends at a fiber that transferred away, whenever nobody resumed the current one |
| `FiberHistory.ReturnMatches` | cont.c:2601-2616 | who resumed gets control back by a yield or the end of the fiber it resumed, who yielded by a resume, who transferred by a transfer or by the end of a fiber nobody resumed; the dead never do |
| `FiberHistory.TransferReturn` | cont.c:2609-2613 | a fiber that transferred gets control otherwise than by a transfer if and only if a fiber ends that nobody resumed |
| `FiberHistory.TransferredNotBack` | cont.c:2609-2613 | a run in which that happens: A resumes B, B transfers to C, C ends, and B goes on |
| `FiberHistory.YieldToResumer` | cont.c:2176-2203 | a yield or an end goes to whoever last resumed that fiber, with no yield of it in between |
| `FiberHistory.DeadStaysDead` | cont.c:2392-2412 | after its end a fiber neither acts nor gets control |
| `FiberHistory.TransferStartedNeverYields` | cont.c:2601-2616 | a fiber started by transfer is never resumed and never yields |
| `FiberHistory.Acyclic` | cont.c:2192-2201 | no number of resuming links leads back to where it started |
| `FiberHistory.PathsDisjoint` | cont.c:241-257 | two fibers never resume the same fiber at once |
| `FiberHistory.GeneratorRuns` | cont.c:2456-2460 | a fiber may be resumed and yield any number of times |
| `FiberHistory.CoroutinesRun` | cont.c:2601-2616 | two fibers may transfer to one another any number of times |
| `SharingInvariant.SoleUser` | array.c:163-174 | the buffer of an array that may be written (its own, or of a root with a count of one) is seen by no other visible array |
| `SharingInvariant.RoomFits` | array.c:190-231 | length, offset and capacity stay inside the buffer or the embedded slots |
| `SharingInvariant.OnlyOneChanges` | array.c:163-174 | if only one array and no buffer of others changes, all other arrays show the same elements |
| `SharingInvariant.SetAlone` | array.c:699-741 | an array that is not shared may be given any form of its own |
| `SharingInvariant.Leave` | array.c:512-529 | leaving a root lowers its count, which is still not below the number of its sharers |
| `SharingInvariant.Join` | array.c:539-556 | joining a root raises its count, which is still not below the number of its sharers |
| `SharingInvariant.MoveWindow` | array.c:1501-1513 | a sharer may move its window inside the root |
| `SharingInvariant.Hide` | array.c:932-956 | handing the buffer to a new hidden root changes no visible array |
| `SharingInvariant.BecomeRoot` | array.c:925-931 | a frozen array may become a root itself |
| `SharingInvariant.Steal` | array.c:582-592 | the only sharer may take the buffer of the hidden root |
| `SharingInvariant.WriteBuffer` | array.c:606-611 | writing to the buffer of an array that may be written changes no other visible array |
| `SharingInvariant.Freeze` | array.c:674-678 | freezing changes no elements |
| `SharingInvariant.Sweep` | array.c:864-892 | an object nobody shares may be swept with its buffer |
| `SharedArray.ObjectSpace.HeapAlloc` | array.c:319-333 | a new buffer that no array uses |
| `SharedArray.ObjectSpace.Write` | array.c:292-311 | the elements are overwritten; every other visible array shows what it did |
| `SharedArray.ObjectSpace.SetLen` | array.c:1356-1373 | the array shows that many of its slots; others are not touched |
| `SharedArray.ObjectSpace.ResizeCapa` | array.c:442-481 | embedded or of exactly that capacity, with no visible element changed |
| `SharedArray.ObjectSpace.ToHeap` | array.c:449-464 | the elements move to a buffer of the given capacity |
| `SharedArray.ObjectSpace.ToEmbed` | array.c:465-478 | the elements move into the object and the buffer is freed |
| `SharedArray.ObjectSpace.DoubleCapa` | array.c:495-510 | room for the minimum plus sixteen, with no visible element changed |
| `SharedArray.ObjectSpace.CancelSharing` | array.c:565-604 | afterwards the array shares nothing, and no visible array, itself included, shows anything else |
| `SharedArray.ObjectSpace.LeaveIntoEmbed` | array.c:574-581 | the window is copied into the object and the root left |
| `SharedArray.ObjectSpace.LeaveByCopy` | array.c:593-599 | the window is copied into a buffer of its own and the root left |
| `SharedArray.ObjectSpace.StealBuffer` | array.c:582-592 | the only sharer slides its window to the front and takes the buffer over |
| `SharedArray.ObjectSpace.EnsureRoomForPush` | array.c:613-659 | refused exactly if frozen, with nothing changed; else writable room behind the elements and no visible change |
| `SharedArray.ObjectSpace.CopyForPush` | array.c:634-655 | the way through a copy, with the same promise |
| `SharedArray.ObjectSpace.Cat` | array.c:1320-1328 | the elements are appended, or a frozen array is refused with nothing changed; no other array changes |
| `SharedArray.ObjectSpace.Push` | array.c:1307-1318 | one element is appended, with the same error and frame |
| `SharedArray.ObjectSpace.Pop` | array.c:1356-1373 | the last element is returned and removed, nil of an empty array; no other array changes |
| `SharedArray.ObjectSpace.PopN` | array.c:1403-1417 | the last n elements, or all, as a new array, and the array without them; the errors for a frozen array and a negative count |
| `SharedArray.ObjectSpace.NewObject` | array.c:699-708 | a new empty array |
| `SharedArray.ObjectSpace.NewWithRoom` | array.c:717-741 | a new empty array, embedded or with a buffer of exactly that capacity |
| `SharedArray.ObjectSpace.New` | array.c:1135-1145 | a new unfrozen array of these elements, embedded or with no spare capacity |
| `SharedArray.ObjectSpace.MakeShared` | array.c:913-957 | a root over the whole buffer, whatever state the array was in, with no visible element changed |
| `SharedArray.ObjectSpace.MakeFrozenRoot` | array.c:925-931 | a frozen array is shrunk to fit and becomes the root |
| `SharedArray.ObjectSpace.MakeHiddenRoot` | array.c:932-956 | a hidden root with a count of one takes the buffer, the spare slots cleared |
| `SharedArray.ObjectSpace.MakePartial` | array.c:1177-1206 | a new array of exactly that slice, copied or shared, and the source as before |
| `SharedArray.ObjectSpace.ShareFrom` | array.c:1190-1205 | the sharing way, with the slice as a window on the root |
| `SharedArray.ObjectSpace.SetWindow` | array.c:1501-1513 | the array shows another part of the root |
| `SharedArray.ObjectSpace.BeheadShared` | array.c:1501-1513 | the first elements are dropped, cleared in the root only when nobody else sees them |
| `SharedArray.ObjectSpace.SlideDown` | array.c:1515-1525 | the first elements are dropped by moving the others down |
| `SharedArray.ObjectSpace.Behead` | array.c:1527-1543 | the first elements are dropped, or a frozen array refused with nothing changed; no other array changes |
| `SharedArray.ObjectSpace.Shift` | array.c:1419-1451 | the first element is returned and removed, nil of an empty array; no other array changes |
| `SharedArray.ObjectSpace.ShiftFirst` | array.c:1437-1446 | a long array is shared first and only its window moves |
| `SharedArray.ObjectSpace.ShiftN` | array.c:1483-1499 | the first n elements, or all, as a new array, and the array without them; the errors for a frozen array and a negative count |
| `SharedArray.ObjectSpace.MakeRoomForUnshift` | array.c:1545-1560 | the window opens downwards by that many slots |
| `SharedArray.ObjectSpace.MoveElements` | array.c:1548-1554 | the elements move up inside the root so that enough slots are before them |
| `SharedArray.ObjectSpace.ModifyForUnshift` | array.c:1562-1596 | slots before the elements, by moving or by a shared buffer with spare slots in front |
| `SharedArray.ObjectSpace.GetRoom` | array.c:1570-1574 | an own buffer of enough capacity, with no visible change |
| `SharedArray.ObjectSpace.EnsureRoomForUnshift` | array.c:1598-1628 | refused exactly if frozen, with nothing changed; else slots before the elements |
| `SharedArray.ObjectSpace.Unshift` | array.c:1643-1658 | the elements come first, or a frozen array is refused with nothing changed; no other array changes |
| `SharedArray.ObjectSpace.Store` | array.c:1147-1175 | the element is at its index, all others are where they were, and every place between the old end and the index is nil; index and frozen errors in the order of the code, with nothing changed |
| `SharedArray.ObjectSpace.FillAndStore` | array.c:1167-1174 | every place of the gap is nil, the element is stored, and the length reaches it |
| `SharedArray.ObjectSpace.Subseq` | array.c:1706-1710 | the slice cut to the array as a new array, or nil for a bad start or length |
| `SharedArray.ObjectSpace.Discard` | array.c:4421-4437 | old contents are released, the root left, and the array embeds the new ones |
| `SharedArray.ObjectSpace.Replace` | array.c:4414-4453 | the array shows what the other shows, by copy or by sharing, itself included; a frozen one is refused with nothing changed |
| `SharedArray.ObjectSpace.ShareInto` | array.c:4438-4450 | the sharing way |
| `SharedArray.ObjectSpace.Clear` | array.c:4464-4483 | empty, or a frozen array refused with nothing changed; no other array changes |
| `SharedArray.ObjectSpace.FreezeArray` | array.c:674-678 | frozen, with the same elements |
| `SharedArray.ObjectSpace.Collect` | array.c:864-892 | an array that nobody shares goes, and no other visible array changes |
| `ArrayRuns.Step` | array.c:1147-1710 | one command on the shared arrays does, and answers, what it does to independent lists |
| `ArrayRuns.Assigned` | array.c:1147-1175 | on the independent lists too, an assignment leaves the element at its index, the others where they were, and nil in the gap |
| `ArrayRuns.OnlyThat` | array.c:565-604 | the lists are independent: a command changes no variable but the one it works on |
| `ArrayRuns.FrozenForever` | array.c:674-678 | a frozen array keeps its elements and stays frozen until it is dropped |
| `ArrayRuns.FrozenRaises` | array.c:606-611 | every command that would change a frozen array raises the error for that, and nothing changes |
| `ArrayRuns.Run` | array.c:1147-1710 | after every script of creations, slices, pops, shifts, pushes, unshifts, stores, replacements, clears, freezes and collections every array shows what independent lists would, and every answer and error is the same |
| `RadixString.ValueNumeral` | bignum.c:3833-3875 | the numeral of a number has its value, for all bases |
| `RadixString.DigitTables` | util.c:76-94 | a digit is written as the character at its place in the table of digits and small letters, and read from that table or the one with capitals |
| `RadixString.NoOtherDigits` | util.c:76-94 | a character has a digit value if and only if it is in one of the two tables |
| `RadixString.NumeralSpells` | bignum.c:45-45 | a numeral consists of the characters, taken from the table, of digits of the base that weigh the number, the first of them not zero |
| `RadixString.ValueSpelled` | bignum.c:3854-3872 | characters of digits of the base, small letters or capitals, are read as what the digits weigh |
| `RadixString.SameInCapitals` | bignum.c:3716-3716 | a string and its form in capitals are read as the same number; characters in neither table do not count |
| `RadixString.ValueBound` | bignum.c:4221-4223 | a numeral of n digits is below base^n, separators not counted |
| `RadixString.PaddedSplit` | bignum.c:4783-4797 | a padded numeral is the padded quotient followed by the padded remainder |
| `RadixString.NumeralSplit` | bignum.c:4783-4797 | a numeral is the numeral of a non-zero quotient followed by the padded remainder |
| `RadixString.PaddedMore` | bignum.c:4834-4854 | padding to more places only adds zeros in front |
| `RadixString.NumeralPadded` | bignum.c:4759-4768 | a padded numeral is the numeral with zeros in front |
| `RadixPower.MaxPow` | bignum.c:332-365 | the largest power of the base in a double digit, and its exponent |
| `RadixPower.ExponentUnique` | bignum.c:332-365 | only one exponent has that property |
| `RadixPower.LevelNext` | bignum.c:4669-4711 | one level up the power is squared and the digits are twice as many |
| `RadixPower.LevelZero` | bignum.c:4669-4711 | the power of level 0 has exactly two digits |
| `RadixPower.Square` | bignum.c:5878-5900 | the square, without leading zeros |
| `RadixPower.GetPower` | bignum.c:4669-4711 | exactly the power of that level and the number of digits it stands for |
| `BigToStr.Printer.Alloc` | bignum.c:4722-4731 | a buffer for one sign and the digits, holding just the sign |
| `BigToStr.Printer.Emit` | bignum.c:4757-4769 | the text grows by exactly these characters |
| `BigToStr.Printer.Pad` | bignum.c:4803-4811 | zeros are written if the text has begun, nothing otherwise |
| `BigToStr.Printer.TwoDigits` | bignum.c:4733-4770 | the numeral of up to two digits: unpadded and with a buffer for all that follows when it is the first, padded when it is not |
| `BigToStr.Printer.Descend` | bignum.c:4818-4832 | the level found is the greatest whose power does not exceed the number, or level 0 |
| `BigToStr.Printer.PadAndPrint` | bignum.c:4834-4843 | zeros make up for all levels skipped |
| `BigToStr.Printer.Halves` | bignum.c:4844-4892 | one division, and the two halves printed, add up to the whole text |
| `BigToStr.Printer.PrintBoth` | bignum.c:4887-4891 | quotient, then remainder, in scratch that each call may overwrite beyond its own digits |
| `BigToStr.Printer.Karatsuba` | bignum.c:4772-4893 | for all numbers below the power of the level: the numeral as the first text, or padded to exactly the digits of the level after other text |
| `BigToStr.DivideInPlace` | bignum.c:4856-4885 | in place, remainder below and quotient above, whether or not the divisor had to be shifted |
| `BigToStr.Scratch` | bignum.c:4870-4870 | the scratch area promised suffices at every level of the recursion |
| `BigToStr.SplitText` | bignum.c:4850-4892 | the texts of the halves, with the zeros in front, are the text of the number |
| `BigToStr.ChooseLevel` | bignum.c:4956-4977 | the power reached by squaring is above the number |
| `BigToStr.LevelEnough` | bignum.c:4956-4977 | the length test that stops the squaring implies that the next level is above the number |
| `BigToStr.Convert` | bignum.c:4745-4757 | digits by repeated division are the numeral |
| `BigToStr.ConvertPadded` | bignum.c:4759-4768 | the same padded to a width |
| `BigToStr.PrintedSpells` | bignum.c:4722-4731 | a minus sign comes first if and only if the number is negative, and what follows weighs the magnitude |
| `BigToStr.Print` | bignum.c:4932-5007 | the text built by the recursion is the numeral after its sign |
| `BigToStr.Generic` | bignum.c:4932-5007 | for all numbers, signs and bases: minus sign if and only if negative, then the table characters of digits of the base that weigh the magnitude, the first of them not zero; zero is 0 |
| `StrToBig.MulAddDigit` | bignum.c:3857-3870 | one digit more: the number becomes base times it plus the digit, growing only as needed |
| `StrToBig.Normal` | bignum.c:3833-3875 | the value of the string, in the digits reserved |
| `StrToBig.Pairs` | bignum.c:3906-3929 | read from the right, groups of digits fill pairs of digits whose weighted sum is the value; exactly the digits reserved are filled |
| `StrToBig.CombinePair` | bignum.c:3933-3934 | lower block plus power times upper block |
| `StrToBig.CombineBlock` | bignum.c:3932-3942 | the same for a full pair, a cut one and a single block |
| `StrToBig.MergeStep` | bignum.c:3931-3943 | merging one pair of blocks keeps the weighted sum |
| `StrToBig.CombineLevel` | bignum.c:3930-3943 | a whole level keeps the weighted sum, with blocks twice as long under the squared power |
| `StrToBig.Karatsuba` | bignum.c:3877-3958 | the value of the string, without leading zeros |
| `StrToBig.RoomEnough` | bignum.c:4221-4223 | the digits reserved hold every number of that many characters |
| `StrToBig.Read` | bignum.c:4220-4240 | whichever reader the length selects, a string of the table characters of digits, small letters or capitals, gives what the digits weigh; other characters are passed over |
| `StrToBig.PrintAndRead` | bignum.c:4932-5007 | what is printed reads back as the same magnitude, for all numbers and bases |
| `TwosComplement.BitsDetermine` | bignum.c:3065-3084 | an integer is determined by its two's complement bits |
| `TwosComplement.BitsAbove` | bignum.c:3065-3084 | below n the bits of the low part, above those of the high part, negative numbers included |
| `TwosComplement.AndOrXor` | bignum.c:6356-6615 | for all integers the and and the or add up to the sum of the operands, and the xor is the or less the and |
| `TwosComplement.Neutral` | bignum.c:6356-6615 | the and with -1, the or with 0 and the xor with 0 are the number itself, and the xor with itself is 0 |
| `TwosComplement.WordOpBits` | bignum.c:6395-6400 | the operation on a digit acts on each bit |
| `TwosComplement.DigitsToBits` | bignum.c:6395-6400 | if all digits of an infinite extension combine, all bits do |
| `BigLogic.Abs2TwoComp` | bignum.c:3065-3084 | the digits with the sign extended stand for the integer |
| `BigLogic.TwoComp2Abs` | bignum.c:3086-3093 | back to sign and magnitude: the same integer, a digit longer when the magnitude needs it |
| `BigLogic.ExtendCarry` | bignum.c:3040-3045 | one digit more, worth B^n |
| `BigLogic.ShrExt` | bignum.c:3065-3084 | every digit of the infinite extension is the stored one or the fill |
| `BigLogic.CombineDigits` | bignum.c:6395-6400 | each digit of the result is the operation on the two extended digits |
| `BigLogic.CombinedAll` | bignum.c:6389-6401 | the digits left out (when the shorter operand is non-negative for and, negative for or) are those the fill stands for |
| `BigLogic.LogicOrdered` | bignum.c:6382-6404 | for operands in order of length, every bit of the result is the operation on the bits of the operands |
| `BigLogic.Logic` | bignum.c:6356-6405 | and, or, xor of two big integers of any sign and length: every bit of the two's complement is the operation on those of the operands |
| `BigLogic.AllThree` | bignum.c:6356-6615 | run on the same operands, the three operations obey those laws |
| `BigLogicLong.LongDigitLoop` | bignum.c:6334-6343 | the digits of the machine word combine until it is exhausted |
| `BigLogicLong.SignLoop` | bignum.c:6345-6350 | the other digits combine with its sign |
| `BigLogicLong.AllDigits` | bignum.c:6321-6351 | with the digits reserved, nothing is lost |
| `BigLogicLong.LogicLong` | bignum.c:6301-6354 | and, or, xor with a machine word: every bit of the result, for words shorter and longer than a digit |
| `BigLogicLong.AllThreeLong` | bignum.c:6301-6567 | the same with a machine word |
| `Combinations.CombsValid` | array.c:6765-6784 | each is an increasing choice of n indices |
| `Combinations.CombsComplete` | array.c:6765-6784 | every increasing choice occurs |
| `Combinations.CombsOrdered` | array.c:6765-6784 | in lexicographic order |
| `Combinations.CombsDistinct` | array.c:6765-6784 | none twice |
| `Combinations.CombsCount` | array.c:6786-6793 | as many as the binomial coefficient |
| `Combinations.Combinate0` | array.c:6765-6784 | the index stack yields exactly the combinations, in order, and ends |
| `Combinations.Combination` | array.c:6837-6867 | the same for every number: none for one out of range, the empty one for 0, and the loop for 1 |
| `Combinations.Absorption` | array.c:6632-6652 | the product that makes each division of the loop exact |
| `Combinations.BinomialCoefficient` | array.c:6632-6652 | the binomial coefficient, 0 outside the range, by exact divisions only |
| `Permutations.PermsValid` | array.c:6576-6609 | each is a choice of r different unused indices |
| `Permutations.PermsComplete` | array.c:6576-6609 | every such choice occurs |
| `Permutations.PermsOrdered` | array.c:6576-6609 | in lexicographic order |
| `Permutations.PermsDistinct` | array.c:6576-6609 | none twice |
| `Permutations.PermsCount` | array.c:6654-6661 | how many follow, from any state of the search |
| `Permutations.PermsTotal` | array.c:6654-6661 | as many as the falling factorial |
| `Permutations.FirstUnused` | array.c:6582-6583 | the next index not in use, or none left |
| `Permutations.YieldAll` | array.c:6597-6603 | the last place runs through all unused indices |
| `Permutations.Pop` | array.c:6583-6587 | going back a place keeps what is still to come |
| `Permutations.Permute0` | array.c:6576-6609 | the index stack yields exactly the permutations, in order, and ends |
| `Permutations.Permutation` | array.c:6727-6763 | the same with the cases of none, one and too many |
| `Permutations.DescendingFactorial` | array.c:6615-6630 | the falling factorial, 0 for a negative count |
| `Sampler.PicksDistinct` | array.c:6372-6417 | the indices are different |
| `Sampler.PicksInRange` | array.c:6372-6417 | the indices are in the array |
| `Sampler.PicksUnique` | array.c:6372-6417 | the draws determine the indices |
| `Sampler.PicksInjective` | array.c:6372-6417 | different draws give different indices |
| `Sampler.PicksSurjective` | array.c:6372-6417 | every choice of different indices has draws: with the two before, each is drawn exactly once |
| `Sampler.PicksTwo` | array.c:6378-6382 | the shortcut for two is such a pick |
| `Sampler.PicksThree` | array.c:6383-6392 | the shortcut for three is such a pick |
| `Sampler.SmallIndices` | array.c:6372-6410 | for up to ten, every path picks, among the indices not yet taken, the one at the place drawn |
| `Sampler.SwappedValues` | array.c:6450-6463 | the swaps permute: different indices in the array |
| `Sampler.SwappedInjective` | array.c:6450-6463 | different draws give different samples |
| `Sampler.SwappedSurjective` | array.c:6450-6463 | every choice of different indices has draws |
| `Sampler.FirstDraw` | array.c:6455-6460 | the first draw is the place of the first element of the sample |
| `Sampler.LowestDraws` | array.c:6455-6460 | with the lowest draw every time, the sample is the beginning of the array |
| `Sampler.DenseSample` | array.c:6450-6464 | the partial shuffle of a copy |
| `Sampler.MemoSample` | array.c:6418-6449 | the same sample with a table of the moved indices in place of a copy |
| `Sampler.ArySample` | array.c:6339-6467 | min(n, len) elements at different places, determined by the draws alone; the error for a negative count |
| `PackFormat.WordBitsIs` | bignum.c:532-595 | full bytes and partial bits make up the word without its nails |
| `PackFormat.WeightIs` | bignum.c:532-595 | the weight of a word is the power of two of all bits before it |
| `PackFormat.BaseApart` | bignum.c:532-595 | in both word orders words do not overlap |
| `PackFormat.Covered` | bignum.c:532-595 | in all orders every byte of the buffer belongs to a word |
| `PackFormat.BufUnique` | bignum.c:640-967 | words of the same value have the same bytes |
| `PackFormat.SameBytes` | bignum.c:640-967 | a buffer is determined by its value |
| `IntegerPack.FillDD` | bignum.c:597-608 | moving a digit into the bit store keeps the number left to write, with at least 16 bits at hand |
| `IntegerPack.TakeLowBits` | bignum.c:610-618 | the bits taken and what is left make up the number |
| `IntegerPack.PackByte` | bignum.c:867-883 | one byte written, full, partial or nail, keeps written plus left equal to the number |
| `IntegerPack.PackWord` | bignum.c:865-883 | the same for a word; other words stay |
| `IntegerPack.PackWords` | bignum.c:864-890 | the buffer and what is left over make up the number |
| `IntegerPack.ComplementWord` | bignum.c:940-955 | inverting and adding the carry gives the complement of a word, in its own bit count |
| `IntegerPack.ComplementWords` | bignum.c:914-962 | the buffer becomes its two's complement |
| `IntegerPack.SingleBit` | bignum.c:901-909 | exactly if the number is a power of two |
| `IntegerPack.OnlyPower` | bignum.c:896-910 | where that test is made, it means that the number is exactly the modulus |
| `IntegerPack.HoldsUnique` | bignum.c:3536-3555 | only one buffer holds a number |
| `IntegerPack.PackGeneric` | bignum.c:818-967 | for all formats: the buffer holds the number modulo 2^bits, as magnitude or two's complement, and the code -2, -1, 0, 1 or 2 is the documented one |
| `PackBytes.MemoryVal` | bignum.c:739-744 | on a little-endian host the bytes of the digits have the value of the digits |
| `PackBytes.LittleEndianValue` | bignum.c:739-742 | in that format a buffer is worth its bytes, least significant first |
| `PackBytes.Bytes2Comp` | bignum.c:621-637 | the bytes become their two's complement; the answer is true exactly for zero |
| `PackBytes.SourceBytes` | bignum.c:743-747 | the bytes of the number without leading zeros |
| `PackBytes.CopyBytes` | bignum.c:748-755 | the number, or its low bytes |
| `PackBytes.SizeTells` | bignum.c:748-764 | the sizes tell the overflow, and the three tests tell the exact negative power |
| `PackBytes.PackLittleEndian` | bignum.c:739-770 | the copying shortcut meets the contract of the generic code |
| `PackShortcuts.StoreWord` | bignum.c:675-685 | one machine word, swapped if need be, is worth the low bits |
| `PackShortcuts.NailsOnTop` | bignum.c:3602-3607 | nails are the top bits of a word: with zero nails, it is worth its plain bytes in order of significance |
| `PackShortcuts.PackOneWord` | bignum.c:669-738 | the single-word shortcut meets the contract of the generic code |
| `PackDigits.DigitOf` | bignum.c:1145-1145 | the digit that has these bytes in memory |
| `PackDigits.SwapDigit` | bignum.c:795-801 | the bytes of a digit are reversed |
| `PackDigits.SwapTwice` | bignum.c:1188-1194 | two swaps cancel |
| `PackDigits.BarySwap` | bignum.c:479-489 | a range of digits is reversed in place, the rest kept |
| `PackDigits.SwapInWords` | bignum.c:802-809 | the digits of each word are reversed |
| `PackDigits.LayOut` | bignum.c:795-812 | the three swaps bring each digit where the format wants it |
| `PackDigits.DigitsValue` | bignum.c:795-812 | so laid out, the buffer is worth the digits |
| `PackDigits.PackWholeDigits` | bignum.c:771-816 | the shortcut for words of whole digits meets the contract of the generic code |
| `PackDigits.BaryPack` | bignum.c:640-967 | whichever way is taken, the buffer holds the number and the code is the documented one |
| `PackDigits.SameAsGeneric` | bignum.c:640-967 | with and without the shortcuts, the same bytes and the same code |
| `IntegerUnpack.PushBits` | bignum.c:1062-1072 | the number read grows by the bits at their weight |
| `IntegerUnpack.UnpackWord` | bignum.c:1242-1253 | a word is read at its weight |
| `IntegerUnpack.UnpackWords` | bignum.c:1241-1264 | the digits are worth the whole buffer, nails left out |
| `IntegerUnpack.Finish` | bignum.c:1260-1264 | the last digit and the zeros above keep the number |
| `IntegerUnpack.BufReadFits` | bignum.c:1249-1250 | for a buffer whose nails are zero, reading and writing agree on the value |
| `IntegerUnpack.BaryZeroP` | bignum.c:440-449 | true exactly for zero |
| `IntegerUnpack.FillTop` | bignum.c:1272-1276 | filling the unused bits of the top digit adds B^n minus the modulus |
| `IntegerUnpack.SignAndMagnitude` | bignum.c:1268-1296 | sign and magnitude of the two's complement reading, the magnitude of one digit more included |
| `IntegerUnpack.UnpackBits` | bignum.c:1215-1298 | the general way, for all formats and buffers: digits and sign of the integer the flags say the buffer stands for |
| `IntegerUnpack.Deliver` | bignum.c:3679-3691 | a magnitude one above what the digits hold gets one digit more |
| `IntegerUnpack.UnpackGeneric` | bignum.c:3645-3714 | with the shortcuts forced off, the integer the flags say the buffer stands for, in as many digits as the format needs |
| `IntegerUnpack.NumBdigits` | bignum.c:969-977 | the fewest digits that hold all bits, and the bits left unused |
| `IntegerUnpack.NumBdigitsAgree` | bignum.c:979-1037 | the overflow-free computation by quotients and remainders gives the same |
| `IntegerUnpack.RoundTrip` | bignum.c:3536-3555 | unless the code tells an overflow, reading with the sign the code tells gives the number back |
| `IntegerUnpack.CodeTells` | bignum.c:3536-3555 | the code has the sign of the number, and tells no overflow if and only if the number can be read back |
| `UnpackShortcuts.UnpackSingle` | bignum.c:1074-1091 | digit and sign of one machine word, for words as wide as a digit and narrower ones |
| `UnpackShortcuts.NailsIgnored` | bignum.c:3606-3607 | whatever the nails are, a word is read as its plain bytes without its top bits |
| `UnpackShortcuts.LoadWord` | bignum.c:1113-1136 | a machine word, swapped if need be, is worth the buffer |
| `UnpackShortcuts.UnpackOneWord` | bignum.c:1112-1138 | the single-word shortcut meets the contract of the general way |
| `UnpackShortcuts.LoadDigits` | bignum.c:1176-1176 | bytes copied over digits: the memory of the digits is these bytes, and their value the same |
| `UnpackShortcuts.CopyFilled` | bignum.c:1143-1165 | the bytes below, and zeros or ones above: the value, or the value plus B^n minus the modulus |
| `UnpackShortcuts.TopOfBytes` | bignum.c:1153-1153 | the top bit of the last byte tells whether the number is at least half the modulus |
| `UnpackShortcuts.UnpackLittleEndian` | bignum.c:1139-1169 | the little-endian shortcut meets the contract of the general way, whatever lies before the buffer, and looks there exactly if there are no words and a sign is to be extended |
| `UnpackShortcuts.TakeUp` | bignum.c:1177-1194 | the three swaps undo the layout: laid out again, the digits are what was read |
| `UnpackShortcuts.LoadWholeDigits` | bignum.c:1170-1194 | the digits are worth the buffer, in any order of words and bytes |
| `UnpackShortcuts.UnpackWholeDigits` | bignum.c:1170-1212 | the shortcut for words of whole digits meets the contract of the general way, whatever lies before the digits, and looks there exactly if there are none and a sign is to be extended |
| `UnpackShortcuts.UnpackInternal` | bignum.c:1100-1299 | whichever way is taken, digits and sign are those of the integer the flags say the buffer stands for |
| `UnpackShortcuts.BaryUnpack` | bignum.c:3645-3714 | for all formats, buffers and flags: that integer, in as many digits as the format needs; and exactly when memory outside is read |
| `UnpackShortcuts.InsideIf` | bignum.c:1153-1153 | memory outside is not read if there is a word, or no sign is extended |
| `UnpackShortcuts.NothingToExtend` | bignum.c:3640-3641 | two inputs where it is read, one for each shortcut: no words, and the sign extended; the result is zero all the same, as documented |
| `UnpackShortcuts.UnpackSameAsGeneric` | bignum.c:1100-1299 | with and without the shortcuts, the same integer in the same digits |
| `UnpackShortcuts.PackAndUnpack` | bignum.c:3536-3714 | pack, then unpack, each through its shortcuts, for all formats and numbers: unless the code tells an overflow, the number comes back |
| `UnpackShortcuts.SignExtension` | bignum.c:3633-3638 | reading two's complement with the sign extended gives the number back if and only if it is in the lower or upper half of the range |
| `UnpackShortcuts.PackAndExtend` | bignum.c:3536-3714 | the same for the two methods: packed as two's complement and sign-extended, the number comes back exactly if it needs one bit less |

## Left out

Big integers:

- GMP: the paths that hand multiplication, division and radix conversion to the GMP library.
- BigIsqrt.BigIsqrt: the estimate that `estimate_initial_sqrt` takes from a floating-point square root is a parameter, any
  number with a non-zero top digit; its floating-point computation and its exact-result return are not modelled.
- BigIsqrt.DblIsqrt: numbers below 2^53 are left to the truncated floating-point square root, whose rounding is not
  modelled; the integer loop is proved for all positive numbers of up to two digits.
- BaryMul.BaryMul: scratch areas of the recursive multiplications are separate new arrays, so that the sizes CRuby
  computes for one common area are not modelled.
- BaryDiv.BigDivRem1: the interruption by another thread, after which the loop continues where it stopped.
- RadixPower.GetPower: computes a power on each call, because caching does not change the result; the limit on the number of
  levels is not modelled.
- StrToBig.Read: takes the digits after prefix, sign and separators have been scanned, in a base all digits belong to; the
  readers' two halves of one scratch area are two arrays.
- Conversion in bases that are powers of two, which takes bits without arithmetic.
- The range check of the base, and the error for a non-integer operand of a bit operation.
- BigLogicLong.LogicLong: the early returns for a zero operand are not separate branches. For a zero that is stored as a big
  integer, which CRuby never produces, `bigand_int` answers the C value 0 and not the integer zero.
- UnpackShortcuts.BaryUnpack: the host is little-endian and the buffer aligned, and whether the integer is returned as a fixnum
  or as a bignum is not modelled.
- PackDigits.BaryPack: the host is little-endian and the buffer aligned; on other hosts only the generic loop applies as modelled.
- Bitwise or is written as a sum where the operands have no bit in common.
- Shifts by whole digits, powers, greatest common divisors, comparison with and conversion to floating point.

Arrays:

- SharedArray.ObjectSpace.Store: the greatest index is not limited, here and in the other operations that grow an array.
- Objects and buffers are kept in maps from identities and addresses; freeing a buffer removes its address.
- The transient heap, write barriers, and all of the collector but the sweep of one array.
- Slices with a step, splicing, sorting, searching and the other operations that only read or rebuild.
- Permutations.Permutation: what the block does is not modelled; the tuples are collected. The same holds for combinations.
- Sampler.ArySample: the array does not change while the random source is asked; `sample` without a count is not modelled.

Fibers:

- Fibers used from another thread, continuations, native stacks and their pool, the scheduler, and `fork`.
- FiberControl.Thread.constructor: the root fiber exists from the start, and is not made at the first switch.
- The internal `rb_fiber_transfer`, which skips the checks of `Fiber#transfer`.
