# Profiler timer: verified nanosecond time difference

This project models the computational core of the lightweight profiling timer in
`system/profiler_timer.h` of the Wavefront Alignments Algorithms library. That core is the
macro `TIME_DIFF_NS(start,end)`. It converts two `struct timespec` clock readings (whole
seconds `tv_sec`, nanoseconds `tv_nsec`) into nanosecond counts `tv_sec*1000000000 + tv_nsec`
and subtracts the start from the end.

The model is one Dafny module, `ProfilerTimer` (`profiler_timer.dfy`):

- `Timespec` is the reading. `Normalized` says its nanosecond field lies in `[0, 1000000000)`.
- `ToNs` and `TimeDiffNs` are the macro, evaluated in unbounded integers.
- `FromNs` (floor quotient and remainder) and `Sub` (field-wise subtraction with a borrow)
  are independent reference definitions. They let the macro's result be checked against
  the readings' own order and fields.
- `ChainSum`, `Segment`, `Accumulated` and `Gaps` are sums of macro results. They show what
  adding per-segment differences into one running total, such as the record's `accumulated`
  field, amounts to.
- `Timer` mirrors the `profiler_timer_t` record: `begin_timer` and `accumulated`. No
  operation is defined on it, because the header declares the timer functions without
  giving their bodies.

## Model

| member | source | states |
|---|---|---|
| `ProfilerTimer.ToNs` | system/profiler_timer.h:34 | A normalized reading's nanosecond count lies in the second it names, and its quotient and remainder by 10^9 are exactly `tv_sec` and `tv_nsec` |
| `ProfilerTimer.TimeDiffNs` | system/profiler_timer.h:34 | Within one second the result is `end.nsec - start.nsec`. For normalized readings the result is at least 0 exactly when start is lexicographically at or before end, and it is 0 exactly when the readings are equal |
| `ProfilerTimer.FromNs` | system/profiler_timer.h:34 | Every nanosecond count has a normalized reading whose conversion gives back that count |
| `ProfilerTimer.Sub` | system/profiler_timer.h:34 | Borrow-style subtraction of normalized readings yields a normalized reading |
| `ProfilerTimer.FromToNs` | system/profiler_timer.h:34 | A normalized reading is recovered from its nanosecond count, so the conversion loses nothing |
| `ProfilerTimer.ToNsInjective` | system/profiler_timer.h:34 | Two normalized readings have the same nanosecond count if and only if they are equal |
| `ProfilerTimer.TimeDiffIsSub` | system/profiler_timer.h:34 | The macro's difference equals the borrow-style subtraction of the readings, in both directions of the conversion |
| `ProfilerTimer.SelfDiffZero` | system/profiler_timer.h:34 | A reading minus itself is 0 |
| `ProfilerTimer.Antisymmetric` | system/profiler_timer.h:34 | Swapping start and end negates the difference |
| `ProfilerTimer.Telescope` | system/profiler_timer.h:34 | diff(a,b) + diff(b,c) = diff(a,c) |
| `ProfilerTimer.SameSecondBound` | system/profiler_timer.h:34 | With equal seconds and normalized readings, the difference lies strictly between -10^9 and 10^9 |
| `ProfilerTimer.DiffNearSecDiff` | system/profiler_timer.h:34 | For normalized readings, the difference is strictly within one second of (end.sec - start.sec) * 10^9 |
| `ProfilerTimer.NoInt64Overflow` | system/profiler_timer.h:34 | With normalized readings and 0 <= tv_sec <= 9223372035, every intermediate and the result of the macro fit in `int64_t`, so 64-bit C evaluation gives the exact value |
| `ProfilerTimer.NonNegativeFitsUint64` | system/profiler_timer.h:58 | If end is not before start, the difference is a natural number. Within the `int64_t` bound it fits the `uint64_t` that `timer_elapsed_ns` returns |
| `ProfilerTimer.ChainTelescopes` | system/profiler_timer.h:34 | The differences between consecutive readings of a chain add up to the difference between its first and last reading |
| `ProfilerTimer.AccumulatedPlusGaps` | system/profiler_timer.h:40-46 | The sum of segment differences plus the sum of differences across the gaps between segments equals the whole span |
| `ProfilerTimer.GapsNonNegative` | system/profiler_timer.h:34 | For time-ordered segments, the gaps add up to 0 or more |
| `ProfilerTimer.AccumulatedNonNegative` | system/profiler_timer.h:40-46 | For time-ordered segments, the accumulated total is 0 or more: the lower bound of the unsigned `accumulated` field |
| `ProfilerTimer.AccumulatedWithinSpan` | system/profiler_timer.h:40-46 | For time-ordered segments, 0 <= accumulated total <= the span from the first begin to the last end, so time between segments is never counted. When the first and last readings have 0 <= tv_sec <= 9223372035, the total is at most the `int64_t` maximum and fits the `uint64_t accumulated` field |

## Left out

- The bodies of `timer_start`, `timer_stop`, `timer_pause`, `timer_continue`, `timer_elapsed_ns`, `timer_reset` and `timer_restart` (system/profiler_timer.h:54-60) are not part of this model. The header only declares them. The segment sums describe arithmetic over `TIME_DIFF_NS` values and are not a claim about what those functions do.
- `profiler_counter_t` and the statistics getters `timer_get_total_ns` through `timer_get_stddev` (system/profiler_timer.h:29, 44, 62-68) are not part of this model. The counter is defined in another header, and the getters are only declared.
- `TIME_DIFF_S` and the `TIMER_CONVERT_NS_TO_*` and `TIMER_GET_TOTAL_*` macros are left out because they use floating-point division.
- `timer_print` is left out because it is stream output.
- Reading the system clock into `begin_timer` is left out because it is an operating-system call. Readings are inputs to the model.
- The overflow bounds (`NoInt64Overflow`, `NonNegativeFitsUint64`, `AccumulatedWithinSpan`) assume an LP64 platform where `time_t` and `long` are 64-bit. The header does not fix these widths. With a 32-bit `time_t`, `tv_sec*1000000000` already overflows once `tv_sec >= 3`.
- `TimeDiffNs` is computed in unbounded integers. C's 64-bit overflow outside the range stated by `NoInt64Overflow` is not modelled.
- `Timer` is a plain record with no operations, because the source gives the record's layout but not its behaviour.
