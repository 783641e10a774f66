# Big-O tutorial examples, verified

A Dafny model of `index.js`, a tutorial script on asymptotic time
complexity. The script is a flat list of nine independent example functions:
a sum by loop (`addUpTo`) and in closed form (`addUpToo`), two linear scans
(`countUpAndDown`), a nested scan over all pairs (`printAllPairs`), repeated
halving (`numberOfHalves`), scans bounded below and above by five
(`logAtLeastFive`, `logAtMostFive`), an even-index filter into a new array
(`onlyElementsAtEvenIndex`) and prefix sums by a nested loop (`subtotals`).

Every JavaScript function reports its result with `console.log`. In the model
that output is the method's result: a returned number, or the returned
sequence of emitted lines in emission order (`Line` values for
`countUpAndDown`, integers for the two logging loops, pairs for
`printAllPairs`). The two array functions return a freshly allocated `array`
that the method fills in place by index, as the source does, and neither has a
`modifies` clause, so the input array is left unchanged.

Each looping function is a `method` with its loop and invariants, proved
against a pure specification: `SumTo` (1 + ... + n), `UpAndDown` (the lines
of `countUpAndDown`), `Interval` (the logging runs), `AllPairs` (row-major
pairs), the bracket 2^(c-1) < n <= 2^c for the halving count, `EvenIndexed`
and `PrefixSums`. Lemmas then relate each specification to a second,
independent reading: the closed form n(n+1)/2, reversal, the position formula
i*n + j and its inverse (k / n, k % n), the least k with n / 2^k <= 1
(`IsHalvingCount`), and the running-total recurrence. Every top-level demo
call of the script appears as a lemma about the specification that the
corresponding method's result equals (or, for `numberOfHalves`, about every
count that meets the method's postcondition).

Files: `sequences.dfy` (module `Sequences`: `Max`, `Min`, `Interval`,
`Reversed`, `Sum`) and `big_o.dfy` (module `BigO`: the nine functions).

Observations from the model:
- `addUpToo(n)` agrees with `addUpTo(n)` for every n >= 0. For n = -1 both
  give 0 as numbers (JavaScript prints the closed form's result as `-0`). For n <= -2 the closed form gives a positive number while the loop
  gives 0. The script only claims agreement for the sum 1..n, so this is
  stated as part of `AddUpToo`'s contract rather than reported as a defect.
- `numberOfHalves` divides as real numbers, not with integer floor
  division. The count for n > 1 is therefore the least c with n <= 2^c,
  that is, the ceiling of log2(n): 17 for the demo input 100000.

## Model

| member | source | states |
|---|---|---|
| `BigO.AddUpTo` | index.js:21-27 | the loop's total is 1 + ... + n; it is 0 when n <= 0 (the loop never runs); for n >= 0 it equals `addUpToo(n)`, i.e. 2 * total == n * (n + 1) |
| `BigO.AddUpToo` | index.js:38-40 | n * (n + 1) / 2 divides exactly; for every n >= 0 it equals the loop sum 1 + ... + n; for n <= -2 it is positive while the loop sum is 0 |
| `BigO.SumToClosedForm` | index.js:54 | both solutions compute the same thing: twice the sum 1 + ... + n is n * (n + 1) for every n >= 0 (by induction) |
| `BigO.SumTo` | index.js:22-25 | the specification of the loop's total: 1 + ... + n, and 0 when n <= 0 |
| `BigO.AddUpToDemo` | index.js:29-35 | the driver calls print 21, 5050 and 500000500000 |
| `BigO.AddUpTooDemo` | index.js:42-48 | the closed form prints the same 21, 5050 and 500000500000 |
| `BigO.CountUpAndDown` | index.js:86-96 | the emitted lines are exactly `UpAndDown(n)`: 'Going Up!', the ascending block, 'At the top', the descending block, 'Back down safely!'; each loop's invariant says which prefix of its block has been written |
| `BigO.UpAndDown` | index.js:86-96 | the specification of countUpAndDown's lines: start marker, the count up from 0 to n-1, middle marker, the count down from n-1 to 0, end marker |
| `BigO.CountUpAndDownDemo` | index.js:98 | `countUpAndDown(15)` emits 33 lines: the markers at 0, 16 and 32, k at position 1 + k and again at position 31 - k |
| `BigO.UpAndDownLayout` | index.js:86-96 | that output has 2n numbers plus 3 markers (n taken as 0 when negative), markers at positions 0, n+1 and 2n+2, the ascending block holds 0 .. n-1 in order, and the descending block is the ascending block reversed |
| `BigO.AscendingAt` | index.js:88-90 | counting up from lo to hi-1 emits max(0, hi - lo) lines, line k holding lo + k |
| `BigO.AscendingFromLow` | index.js:88-90 | counting up from lo is lo followed by counting up from lo + 1 |
| `BigO.DescendingIsReversed` | index.js:92-94 | counting down from hi-1 to lo emits the count up from lo to hi-1 reversed (by induction) |
| `Sequences.Reversed` | index.js:92-94 | reversal keeps the length and puts the element k places from the end at position k |
| `BigO.PrintAllPairs` | index.js:106-112 | exactly n * n pairs (none when n <= 0), in row-major order; the pair at position k is (k / n, k % n) |
| `BigO.AllPairs` | index.js:107-111 | the first `rows` rows of the nested loop have rows * n pairs |
| `BigO.AllPairsAt` | index.js:107-109 | for 0 <= i < rows and 0 <= j < n, position i * n + j holds (i, j) |
| `BigO.AllPairsIndex` | index.js:107-109 | conversely, every position k holds (k / n, k % n), so each emitted pair is some (i, j) of the loops |
| `BigO.PrintAllPairsDemo` | index.js:114 | `printAllPairs(3)` emits (0,0),(0,1),(0,2),(1,0),(1,1),(1,2),(2,0),(2,1),(2,2) |
| `BigO.NumberOfHalves` | index.js:123-130 | count is 0 exactly when n <= 1; n <= 2^count and, when count > 0, 2^(count-1) < n, so count is the least number of halvings after which n is at most 1; the loop terminates |
| `BigO.IsHalvingCount` | index.js:125-128 | the reading of the loop's count: c halvings bring n to at most 1 and no fewer do |
| `BigO.HalvingCountUnique` | index.js:123-130 | the least halving count is unique |
| `BigO.HalvingCountIsCeilLog2` | index.js:123-130 | c is the least k with n / 2^k <= 1 if and only if n <= 2^c and (for c > 0) 2^(c-1) < n, i.e. c is the ceiling of log2(n) for n > 1 |
| `BigO.Pow2Monotone` | index.js:125-128 | powers of two grow with the exponent (used for termination of the halving loop) |
| `BigO.Pow2Exceeds` | index.js:125-128 | 2^k > k, so every start value lies below some power of two and the halving loop stops |
| `BigO.NumberOfHalvesDemo` | index.js:132 | `numberOfHalves(100000)` prints 17 |
| `Sequences.Interval` | index.js:146-147 | the run lo .. hi-1 that a logging loop emits has max(0, hi - lo) elements and element k is lo + k |
| `BigO.LogAtLeastFive` | index.js:145-149 | emits exactly `Interval(1, max(5, n) + 1)`, i.e. 1, 2, ..., max(5, n): element k is k + 1, and never fewer than five numbers |
| `BigO.LogAtMostFive` | index.js:159-163 | emits exactly `Interval(1, min(5, n) + 1)`, i.e. 1, 2, ..., min(5, n) (nothing when n <= 0): element k is k + 1, and never more than five numbers |
| `BigO.LogFiveDemo` | index.js:151-166 | the runs for logAtLeastFive(9), logAtLeastFive(3), logAtMostFive(9), logAtMostFive(3) are 1..9, 1..5, 1..5 and 1..3 |
| `BigO.LogsCompared` | index.js:145-170 | `logAtMostFive(n)`'s output is a prefix of `logAtLeastFive(n)`'s, and the two are equal exactly when n == 5 |
| `BigO.EvenIndexed` | index.js:174-182 | the even-position elements of s number ceil(length / 2) and element k is s[2k] |
| `BigO.OnlyElementsAtEvenIndex` | index.js:174-182 | the new array has ceil(length / 2) slots, every slot k holds a[2k] (all slots filled), it equals `EvenIndexed` of the input, and the input is not modified |
| `BigO.EvenIndexedDemo` | index.js:184 | `onlyElementsAtEvenIndex([5,6,2,7,8,9,4,5])` gives [5,2,8,4] |
| `BigO.Subtotals` | index.js:191-201 | the new array has the input's length, slot i is a[0] + ... + a[i] (inner-loop invariant: subtotal is the sum of a[0..j)), slot 0 is a[0] and slot i is slot i-1 plus a[i]; the input is not modified |
| `BigO.PrefixSums` | index.js:193-198 | the specification of subtotals' result: entry i is s[0] + ... + s[i] |
| `BigO.RunningTotals` | index.js:191-201 | the running-total reading of the prefix sums has the input's length |
| `BigO.PrefixSumsAreRunningTotals` | index.js:191-201 | re-summing each prefix from scratch (as `subtotals` does) equals keeping a running total (by induction) |
| `BigO.PrefixSumsStep` | index.js:193-198 | each prefix sum is the previous one plus the next element |
| `BigO.SubtotalsDemo` | index.js:203 | `subtotals([23,92,12,34,94])` gives [23,115,127,161,255] |

## Left out

- Timing with `performance.now()` and the "Time elapsed" lines (index.js:32-36, 45-49): wall-clock instrumentation with no statable behaviour.
- `console.log` as an output channel: emitted lines are returned as values instead of written to standard output.
- The top-level driver calls are stated as lemmas about the specification functions that the methods' results are proved equal to, not as calls of the methods.
- JavaScript `Number` semantics: inputs and sums are unbounded integers (and a real number for `numberOfHalves`). Non-integer arguments, `NaN`, `Infinity` and double-precision rounding (e.g. sums beyond 2^53) and signed zero (`addUpToo(-1)` prints `-0`) are not modelled.
- Floating-point halving in `numberOfHalves`: real division is exact in the model; IEEE underflow and rounding are not modelled (halving by two is exact in binary for the values the loop reaches).
- Sparse-array holes from `Array(k)` preallocation: the new arrays are ordinary arrays of the given length, every slot of which the loop writes.
- The prose on asymptotic cost: iteration counts and Big-O classes are not stated.
- The element type of `onlyElementsAtEvenIndex` is any type with a default value; `subtotals` works on integers (unbounded, so no floating-point addition).
