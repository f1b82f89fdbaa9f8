# mt-collatz, modelled in Dafny

`mt-collatz` computes the Collatz stopping time of every integer in [1, N]
and collects the step counts in a histogram of 1001 bins (bin 1000 takes
every count of 1000 or more). T worker threads share two objects: a cursor
that hands out the next start value, and the histogram. Each worker claims a
value, stops once the value exceeds N, and otherwise computes its stopping
time, clamps it to a bin and adds one to that bin. With locks (the default),
each claim and each histogram increment is done under its own mutex. With
`-nolock` the histogram increment is a plain, racy read-modify-write.

The model has six modules:

- `Collatz` (collatz.dfy): the Collatz rule (`Step`), its iteration
  (`Iterate`), what a stopping time is (`IsStoppingTime`: 0 for 0 and 1,
  otherwise the first number of steps after which the value is 1), the loop
  of `collatz_stopping_time` as the method `ComputeStoppingTime`, a
  version of the same loop bounded by a number of iterations (`StepsWithin`),
  and the ghost function `StoppingTime`. `StepsWithin` tests `n <= 1` where
  the C++ loop tests `n != 1`; the two agree on every value the loop can
  see, because the early return handles 0 and the rule never takes a
  positive value to 0. Whether every start value reaches 1 is the open
  Collatz conjecture. Therefore the loop is given the premise `Defined(n)`,
  which says that n <= 1 or that some iterate of n equals 1. The loop's
  termination measure is a step bound chosen from that premise.
- `CollatzValues` (collatz_values.dfy): the reference values 0 -> 0, 1 -> 0,
  2 -> 1, 3 -> 7 and 27 -> 111. The values for 0 and 1 follow from the
  early return; those for 2, 3 and 27 are obtained by walking the sequence
  of the start value back from 1 with the step recurrence.
- `Histogram` (histogram.dfy): the clamp `Bin`, the reset histogram `Zeros`,
  and `Tally(s)`. `Tally(s)` is the histogram a set of start values should
  produce: bin b counts the values of s whose sequence reaches 1 and whose
  clamped stopping time is b (every theorem about a run assumes that each of
  its values does).
  The module also proves how `Tally` changes when one value is added and
  that its bins sum to |s|.
- `Engine` (engine.dfy): the shared state as two classes. `Cursor` has a
  `next` field and the atomic `Claim`. `Bins` keeps its 1001 counters in an
  array and has `Reset` and `Record`. `Worker` is the worker loop and `Run`
  is a whole run in which the T workers execute one after another.
- `Interleaving` (interleaving.dfy): locked mode with T workers, modelled as
  a state machine over values. Each step is one worker's atomic claim or
  atomic record, and a schedule (a sequence of worker indices) chooses who
  moves next. The result proved: any schedule that runs every worker to its
  end leaves the histogram of [1, N], the same as a single worker's run, and
  for every T >= 1 such a schedule exists.
- `Timing` (timing.dfy): the borrow that computes the elapsed time from two
  clock readings.

## Model

| member | source | states |
|---|---|---|
| `Collatz.Step` | mt-collatz.cpp:28-32 | One application of the rule: an even value is halved (twice the result is the value), an odd value rises to an even value, and a positive value never becomes 0. |
| `Collatz.ComputeStoppingTime` | mt-collatz.cpp:21-36 | Returns 0 for start values 0 and 1. For any other start value that reaches 1, returns the number of rule applications (halve if even, 3n+1 if odd) after which the value first equals 1. This equals `StoppingTime(start)`. |
| `Collatz.StoppingTimeSpec` | mt-collatz.cpp:21-36 | For every start value whose sequence reaches 1 (or that is 0 or 1), the ghost function `StoppingTime` gives a value that `IsStoppingTime` accepts: 0 for 0 and 1, otherwise the first number of steps after which the value is 1. |
| `Collatz.StoppingTimeUnique` | mt-collatz.cpp:27-35 | A start value has at most one stopping time, so the loop's result is determined by its input. |
| `Collatz.Recurrence` | mt-collatz.cpp:27-34 | For n >= 2, k is the stopping time of n if and only if k >= 1 and k - 1 is the stopping time of n/2 (n even) or of 3n+1 (n odd). |
| `Collatz.StoppingTimeStep` | mt-collatz.cpp:27-34 | For n >= 2 that reaches 1, its successor also reaches 1, and st(n) = 1 + st(successor). |
| `Collatz.IterateSnoc` | mt-collatz.cpp:27-33 | One more iteration of the loop body applies the rule once more to the current value. |
| `Collatz.StepsWithin` | mt-collatz.cpp:22-35 | The loop run for at most `fuel` more iterations from a step count `steps`: when it finishes, its count lies between `steps` and `steps + fuel`. Its guard is `n <= 1` rather than `n != 1`; this is sound because 0 never enters the loop (line 22) and `Step` never takes a positive value to 0. |
| `Collatz.StepsWithinSound` | mt-collatz.cpp:27-35 | When the loop bounded by a number of iterations ends in time, its step count is the stopping time and is at most the bound. |
| `Collatz.FuelSuffices` | mt-collatz.cpp:27-34 | If some number of steps takes n to 1, then the loop bounded by that number of iterations ends in time. |
| `CollatzValues.KnownValues` | mt-collatz.cpp:21-36 | The reference values: st(0) = st(1) = 0, st(2) = 1, st(3) = 7, st(27) = 111. |
| `CollatzValues.StepBack` | mt-collatz.cpp:27-34 | If the successor of n >= 2 takes k steps to reach 1, then n takes k + 1. |
| `CollatzValues.KnownTwo` | mt-collatz.cpp:27-35 | 2 takes one step: st(2) = 1. |
| `CollatzValues.KnownThree` | mt-collatz.cpp:27-35 | 3 -> 10 -> 5 -> 16 -> 8 -> 4 -> 2 -> 1: st(3) = 7. |
| `CollatzValues.KnownTwentySeven` | mt-collatz.cpp:27-35 | st(27) = 111. |
| `CollatzValues.Trajectory27` | mt-collatz.cpp:27-35 | The sequence from 27 first equals 1 after exactly 111 steps. |
| `CollatzValues.Known` | mt-collatz.cpp:21-36 | A step count known to be the stopping time of n is the value of the stopping time function at n. |
| `Histogram.Bin` | mt-collatz.cpp:97 | The bin is min(steps, 1000). It is at most steps and at most 1000, it equals one of the two, and it is always a valid index of the 1001-bin histogram. |
| `Histogram.RangeSize` | mt-collatz.cpp:83-94 | The start values lo..hi number hi - lo + 1 (none when lo > hi). |
| `Histogram.CountIsCardinality` | mt-collatz.cpp:96-101 | The one-at-a-time count of bin b over a set equals the number of its values that reach 1 and whose clamped stopping time is b. |
| `Histogram.CountInsert` | mt-collatz.cpp:96-101 | Adding a new value m changes the count of bin b by 1 when b is the bin of m, and by 0 otherwise. |
| `Histogram.Zeros` | mt-collatz.cpp:11 | The histogram after the reset has 1001 bins, all 0. |
| `Histogram.TallyEmpty` | mt-collatz.cpp:72 | With no values recorded, the expected histogram is the all-zero one. |
| `Histogram.TallyInsert` | mt-collatz.cpp:96-101 | Recording one more value adds 1 to the bin of its clamped stopping time and changes no other bin. |
| `Histogram.TallyNext` | mt-collatz.cpp:94-101 | The histogram of 1..m is the histogram of 1..m-1 with the bin of m incremented. |
| `Histogram.RecordNext` | mt-collatz.cpp:96-101 | If the histogram holds the values 1..m-1 and `steps` is the stopping time of m, incrementing bin min(steps, 1000) gives the histogram of 1..m. |
| `Histogram.SumIncrement` | mt-collatz.cpp:101 | Incrementing one bin adds exactly 1 to the histogram's total. |
| `Histogram.TallySum` | mt-collatz.cpp:83-106 | The histogram of a set of start values sums to the number of values in the set. |
| `Histogram.HistogramOfRange` | mt-collatz.cpp:83-106 | The histogram of [1, N] sums to N. Each bin b counts exactly the k in [1, N] with min(st(k), 1000) = b. |
| `Engine.Cursor.constructor` | mt-collatz.cpp:14 | The cursor starts at 1. |
| `Engine.Cursor.Store` | mt-collatz.cpp:73 | The reset stores 1 in the cursor (it stores any given value). |
| `Engine.Cursor.Claim` | mt-collatz.cpp:86-92 | A claim returns the current cursor value and advances the cursor by exactly 1. |
| `Engine.Bins.constructor` | mt-collatz.cpp:11 | A fresh histogram has 1001 counters, all 0. |
| `Engine.Bins.Reset` | mt-collatz.cpp:72 | Every counter becomes 0. The array and its length (1001) do not change. |
| `Engine.Bins.Record` | mt-collatz.cpp:99-101 | The counter of the given bin grows by 1. Every other counter, and the array's length, stay the same. |
| `Engine.AscendingAt` | mt-collatz.cpp:84-94 | Entry i of the claims lo..hi is lo + i: the values claimed one after another by successive fetch-and-adds. |
| `Engine.AscendingSnoc` | mt-collatz.cpp:84-94 | The claims lo..hi, in order, are the claims lo..hi-1 followed by hi. |
| `Engine.Serve` | mt-collatz.cpp:85-101 | One pass of the loop body: the claimed value is the old cursor and the cursor advances by 1. When the value is greater than N the histogram is unchanged; otherwise its bin is incremented, so that the histogram still holds exactly the values below the cursor that are at most N. |
| `Engine.Worker` | mt-collatz.cpp:83-106 | From a consistent state, the worker claims next, next+1, and so on. It records exactly the claimed values up to N, in order, and stops on the first claim greater than N, which it does not record. Afterwards the histogram is the histogram of [1, N], and the cursor is one past max(old cursor, N + 1). |
| `Engine.Run` | mt-collatz.cpp:71-117 | After the reset and T >= 1 workers run one after another, the histogram is the histogram of [1, N]. It sums to N, and each bin b counts exactly the k in [1, N] whose clamped stopping time is b. The values recorded are 1, 2, ..., N in that order (`Ascending(1, N)`, whose entries `AscendingAt` gives). The cursor ends at N + 1 + T: each worker makes one claim beyond N. |
| `Interleaving.Start` | mt-collatz.cpp:72-73 | After the reset and launch, the cursor is 1, the histogram is all 0, and all T workers are about to claim. |
| `Interleaving.Act` | mt-collatz.cpp:84-106 | One atomic step of one worker (claim under the cursor lock, or record under the histogram lock). The number of workers does not change. |
| `Interleaving.StartInv` | mt-collatz.cpp:72-73 | The state after the reset satisfies the protocol invariant. |
| `Interleaving.ClaimInRangeInv` | mt-collatz.cpp:86-88 | A claim of a value in [1, N] preserves the invariant: the value is now held by that worker alone. |
| `Interleaving.ClaimBeyondInv` | mt-collatz.cpp:86-94 | A claim beyond N stops the worker and preserves the invariant, so every over-range claim retires exactly one worker. |
| `Interleaving.RecordInv` | mt-collatz.cpp:96-101 | Recording a held value preserves the invariant: the histogram now also counts that value. |
| `Interleaving.RecordRecorded` | mt-collatz.cpp:99-101 | The value a worker holds has not been recorded yet, and after its record step the recorded values are the old ones plus that value. |
| `Interleaving.ActInv` | mt-collatz.cpp:84-106 | Every atomic step, by any worker, preserves the invariant. |
| `Interleaving.Execute` | mt-collatz.cpp:84-106 | Whatever the schedule, the state it reaches satisfies the invariant and keeps the number of workers. |
| `Interleaving.RunSchedule` | mt-collatz.cpp:72-117 | A run from the reset under any schedule reaches a state that satisfies the invariant. |
| `Interleaving.AnySchedule` | mt-collatz.cpp:83-117 | Take any schedule of T >= 1 workers after which all of them have stopped. The final histogram is the histogram of [1, N] and sums to N, and the cursor ends at N + 1 + T. |
| `Interleaving.ScheduleIndependent` | mt-collatz.cpp:83-117 | Two schedules, for any numbers of workers, that both run every worker to its end give the same histogram. |
| `Interleaving.ExecuteAppend` | mt-collatz.cpp:83-117 | Running one schedule and then another reaches the same state as running their concatenation. |
| `Interleaving.SoloRuns` | mt-collatz.cpp:83-106 | While the other workers wait to claim, worker 0 claiming from c <= N + 1 has stopped after 2(N + 1 - c) + 1 moves of its own. The cursor is then N + 2 and no other worker has moved. |
| `Interleaving.SoloRound` | mt-collatz.cpp:84-101 | Worker 0's in-range claim and the record that follows take two moves and leave it claiming again, one value further on, with every other worker unchanged. |
| `Interleaving.OthersStop` | mt-collatz.cpp:86-94 | Once the cursor has passed N, each worker still about to claim stops after one move, so all workers end up stopped. |
| `Interleaving.ScheduleExists` | mt-collatz.cpp:83-117 | For every T >= 1, the schedule in which worker 0 handles all of [1, N] and then each other worker makes its one claim runs every worker to its end. So the premise of `AnySchedule` can always be met. |
| `Interleaving.SingleWorker` | mt-collatz.cpp:83-117 | A single worker's run of 2N + 1 moves completes. Any complete schedule of T workers yields the same histogram as that single-worker run. |
| `Timing.Elapsed` | mt-collatz.cpp:126-128 | The result always equals end - start, counted in nanoseconds. For normalized readings, its nanosecond part is in [0, 10^9). When the end is not before the start, its seconds are not negative. |
| `Timing.NormalizedUnique` | mt-collatz.cpp:126-128 | A reading whose nanosecond part is in [0, 10^9) is determined by its total count of nanoseconds. |
| `Timing.ElapsedIsDivision` | mt-collatz.cpp:126-128 | For normalized readings, the elapsed time is the nanosecond difference split into whole seconds and a remainder: (diff / 10^9, diff % 10^9). |

## Left out

- Thread creation and joining (mt-collatz.cpp:110-117): concurrency machinery.
  Locked mode is modelled in `Interleaving` as arbitrary interleavings of
  atomic claim and record steps, and in `Engine.Run` as workers that run one
  after another.
- The mutexes (mt-collatz.cpp:17-18) are not modelled as objects. Their effect,
  that each claim and each histogram increment is one indivisible step, is
  what `Interleaving.Act` assumes.
- The unsynchronised `++HIST[bin]` of `-nolock` mode (mt-collatz.cpp:104):
  it is a data race with undefined behaviour in C++, so no outcome can be
  stated about it. The cursor is a `std::atomic`, so `COUNTER++` is an
  atomic fetch-and-add in both modes (mt-collatz.cpp:14, 88, 91). In the
  code, claims are therefore unique even without locks, although the
  comments at mt-collatz.cpp:90 and mt-collatz.cpp:103 call the `-nolock`
  paths "intentionally unsynchronized". The model follows the code:
  `Engine.Cursor.Claim` covers both claim paths.
- Argument parsing, the usage, error and warning messages, and the choice of
  mode (mt-collatz.cpp:39-69): foreign library calls and I/O. N and T are
  parameters, and T >= 1 is a precondition, as the parser ensures.
- `clock_gettime` and its error exits, and all output to stderr and stdout
  (mt-collatz.cpp:75-80, 119-123, 130-136): system calls and text output.
  Only the borrow arithmetic between them is modelled (`Timing.Elapsed`).
- Machine widths: the 128-bit intermediate `n`, the `unsigned int` step count,
  the `unsigned long long` counters and cursor, and the `long long` time
  arithmetic are all unbounded integers. The widths were chosen so that
  overflow does not happen in practice.
- `Collatz.ComputeStoppingTime`: requires `Defined(start)`, meaning that the
  sequence reaches 1. The C++ loop has no such precondition. It would simply
  not return for a start value that never reaches 1. Collatz termination is
  an open conjecture, so this premise is an explicit assumption. `Engine.Run`,
  `Engine.Worker` and the `Interleaving` theorems require it for every k in
  [1, N].
- `Interleaving`: modelled on values (a sequence of counters, not the shared
  array). Schedules are finite sequences chosen from outside; the model does
  not describe fairness of a real thread scheduler, only that every schedule
  that runs all workers to their end has the same result and that such a
  schedule exists for every T >= 1.
