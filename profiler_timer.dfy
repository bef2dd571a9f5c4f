/** A model of the nanosecond time difference of the lightweight profiling timer.

The only computation in the timer header is the macro TIME_DIFF_NS, which turns two
`struct timespec` readings (whole seconds and nanoseconds) into one nanosecond count each
and subtracts them. This module models that expression on unbounded integers and proves
the algebra that lets per-segment differences be added into one running total: self
difference, antisymmetry, telescoping (pairwise and over whole chains of readings),
agreement with the lexicographic order of normalized readings, and the bounds under which
the C evaluation in 64-bit integers neither overflows nor loses the result when it is
returned as an unsigned 64-bit count.
 */
module ProfilerTimer {

  /** Nanoseconds in one second: the multiplier of `tv_sec` in TIME_DIFF_NS. */
  const NsPerSec: int := 1000000000

  /** Bounds of the C types involved, on an LP64 platform where `time_t` and `long` (the type
      of the macro's arithmetic) are 64-bit signed integers, and of `uint64_t`. */
  const Int64Min: int := -0x8000_0000_0000_0000
  const Int64Max: int := 0x7fff_ffff_ffff_ffff
  const Uint64Max: int := 0xffff_ffff_ffff_ffff

  /** The largest whole-second count for which every normalized reading, converted to nanoseconds, fits in an `int64_t`. */
  const MaxSec: int := 9223372035

  /** A `struct timespec`: whole seconds `tv_sec` and nanoseconds `tv_nsec`. */
  datatype Timespec = Timespec(sec: int, nsec: int)

  /** The profiler timer record: the reading that began the current segment and the
      unsigned nanosecond total accumulated so far. The statistics counter `time_ns` is
      not part of this model; no operation is defined on this record. */
  datatype Timer = Timer(beginTimer: Timespec, accumulated: nat)

  /** A reading as the clock delivers it: the nanosecond part is below one second. */
  predicate Normalized(t: Timespec) {
    0 <= t.nsec < NsPerSec
  }

  /** `s` is at or before `e` in the lexicographic order of (seconds, nanoseconds). */
  predicate LexLe(s: Timespec, e: Timespec) {
    s.sec < e.sec || (s.sec == e.sec && s.nsec <= e.nsec)
  }

  /** One operand of TIME_DIFF_NS: `tv_sec*1000000000 + tv_nsec`. A normalized reading lies
      in the half-open second it names, so its seconds and nanoseconds are the quotient and
      remainder of the count. */
  function ToNs(t: Timespec): (n: int)
    ensures Normalized(t) ==> t.sec * NsPerSec <= n < t.sec * NsPerSec + NsPerSec
    ensures Normalized(t) ==> n / NsPerSec == t.sec && n % NsPerSec == t.nsec
  {
    t.sec * NsPerSec + t.nsec
  }

  /** TIME_DIFF_NS(start, end), on unbounded integers. */
  function TimeDiffNs(start: Timespec, end: Timespec): (r: int)
    ensures start.sec == end.sec ==> r == end.nsec - start.nsec
    ensures Normalized(start) && Normalized(end) ==> (0 <= r <==> LexLe(start, end))
    ensures Normalized(start) && Normalized(end) ==> (r == 0 <==> start == end)
  {
    ToNs(end) - ToNs(start)
  }

  /** Reference inverse of ToNs: the normalized reading of a nanosecond count
      (floor quotient and non-negative remainder). */
  function FromNs(n: int): (t: Timespec)
    ensures Normalized(t) && ToNs(t) == n
  {
    Timespec(n / NsPerSec, n % NsPerSec)
  }

  /** Reference definition of the difference `end - start` of readings: field-wise subtraction
      with a borrow from the seconds when the nanoseconds would go negative. */
  function Sub(start: Timespec, end: Timespec): (d: Timespec)
    requires Normalized(start) && Normalized(end)
    ensures Normalized(d)
  {
    if start.nsec <= end.nsec then Timespec(end.sec - start.sec, end.nsec - start.nsec)
    else Timespec(end.sec - start.sec - 1, end.nsec - start.nsec + NsPerSec)
  }

  /** Every normalized reading is recovered from its nanosecond count. */
  lemma FromToNs(t: Timespec)
    requires Normalized(t)
    ensures FromNs(ToNs(t)) == t
  {
  }

  /** Two normalized readings with the same nanosecond count are the same reading. */
  lemma ToNsInjective(a: Timespec, b: Timespec)
    requires Normalized(a) && Normalized(b)
    ensures ToNs(a) == ToNs(b) <==> a == b
  {
    if ToNs(a) == ToNs(b) {
      FromToNs(a);
      FromToNs(b);
    }
  }

  /** TIME_DIFF_NS agrees with the borrow-style subtraction of normalized readings: the
      difference, split back into seconds and nanoseconds, is exactly that subtraction. */
  lemma TimeDiffIsSub(start: Timespec, end: Timespec)
    requires Normalized(start) && Normalized(end)
    ensures ToNs(Sub(start, end)) == TimeDiffNs(start, end)
    ensures FromNs(TimeDiffNs(start, end)) == Sub(start, end)
  {
    FromToNs(Sub(start, end));
  }

  /** A reading minus itself is zero. */
  lemma SelfDiffZero(t: Timespec)
    ensures TimeDiffNs(t, t) == 0
  {
  }

  /** Swapping start and end negates the difference. */
  lemma Antisymmetric(a: Timespec, b: Timespec)
    ensures TimeDiffNs(a, b) == -TimeDiffNs(b, a)
  {
  }

  /** Telescoping: the difference over [a, c] is the sum of the differences over [a, b] and [b, c]. */
  lemma Telescope(a: Timespec, b: Timespec, c: Timespec)
    ensures TimeDiffNs(a, b) + TimeDiffNs(b, c) == TimeDiffNs(a, c)
  {
  }

  /** Within one second the difference of normalized readings is strictly less than one
      second in magnitude. */
  lemma SameSecondBound(start: Timespec, end: Timespec)
    requires Normalized(start) && Normalized(end) && start.sec == end.sec
    ensures -NsPerSec < TimeDiffNs(start, end) < NsPerSec
  {
  }

  /** Whatever the seconds fields, the difference of normalized readings is within one
      second of the whole-second difference. */
  lemma DiffNearSecDiff(start: Timespec, end: Timespec)
    requires Normalized(start) && Normalized(end)
    ensures (end.sec - start.sec) * NsPerSec - NsPerSec < TimeDiffNs(start, end)
    ensures TimeDiffNs(start, end) < (end.sec - start.sec) * NsPerSec + NsPerSec
  {
  }

  /** A normalized reading with 0 <= tv_sec <= MaxSec: every intermediate of its conversion
      in TIME_DIFF_NS is a non-negative `int64_t`. */
  predicate InCRange(t: Timespec) {
    Normalized(t) && 0 <= t.sec <= MaxSec
  }

  /** Under InCRange, the C evaluation of TIME_DIFF_NS in `int64_t` does not overflow: both
      products, both sums and the final subtraction stay within `int64_t`, so the C result
      equals the unbounded one. */
  lemma NoInt64Overflow(start: Timespec, end: Timespec)
    requires InCRange(start) && InCRange(end)
    ensures 0 <= start.sec * NsPerSec <= ToNs(start) <= Int64Max
    ensures 0 <= end.sec * NsPerSec <= ToNs(end) <= Int64Max
    ensures Int64Min <= TimeDiffNs(start, end) <= Int64Max
  {
  }

  /** If the end is not before the start, the difference is a natural number and, under
      InCRange, a `uint64_t` (the return type of `timer_elapsed_ns`) holds it exactly. */
  lemma NonNegativeFitsUint64(start: Timespec, end: Timespec)
    requires Normalized(start) && Normalized(end) && LexLe(start, end)
    ensures 0 <= TimeDiffNs(start, end)
    ensures InCRange(start) && InCRange(end) ==> TimeDiffNs(start, end) <= Uint64Max
  {
    if InCRange(start) && InCRange(end) {
      NoInt64Overflow(start, end);
    }
  }

  // ---------------------------------------------------------------------------------
  // Sums of differences: what adding per-segment TIME_DIFF_NS values into a running
  // total (the `accumulated` field) amounts to.
  // ---------------------------------------------------------------------------------

  /** The sum of the differences between consecutive readings of a chain. */
  function ChainSum(ts: seq<Timespec>): (s: int)
    decreases |ts|
  {
    if |ts| < 2 then 0 else TimeDiffNs(ts[0], ts[1]) + ChainSum(ts[1..])
  }

  /** Telescoping over a whole chain: the consecutive differences add up to the difference
      between the first and the last reading. */
  lemma {:induction false} ChainTelescopes(ts: seq<Timespec>)
    requires |ts| >= 1
    ensures ChainSum(ts) == TimeDiffNs(ts[0], ts[|ts| - 1])
  {
    if |ts| == 1 {
      SelfDiffZero(ts[0]);
    } else {
      ChainTelescopes(ts[1..]);
      assert ts[1..][0] == ts[1] && ts[1..][|ts| - 2] == ts[|ts| - 1];
      Telescope(ts[0], ts[1], ts[|ts| - 1]);
    }
  }

  /** One running interval: the reading that began it and the reading that ended it. */
  datatype Segment = Segment(begin: Timespec, stop: Timespec)

  /** The total of the running intervals: the sum of TIME_DIFF_NS over each segment. */
  function Accumulated(segs: seq<Segment>): (s: int)
    decreases |segs|
  {
    if segs == [] then 0 else TimeDiffNs(segs[0].begin, segs[0].stop) + Accumulated(segs[1..])
  }

  /** The total of the gaps between consecutive segments: from each segment's end to the
      next one's beginning. */
  function Gaps(segs: seq<Segment>): (s: int)
    decreases |segs|
  {
    if |segs| < 2 then 0 else TimeDiffNs(segs[0].stop, segs[1].begin) + Gaps(segs[1..])
  }

  /** Segments in time order: normalized readings, each segment not ending before it
      begins, and each beginning no earlier than the previous end. */
  predicate Ordered(segs: seq<Segment>) {
    && (forall i :: 0 <= i < |segs| ==>
          Normalized(segs[i].begin) && Normalized(segs[i].stop) && LexLe(segs[i].begin, segs[i].stop))
    && (forall i :: 0 <= i < |segs| - 1 ==> LexLe(segs[i].stop, segs[i + 1].begin))
  }

  /** The running total plus the gaps is the whole span from the first beginning to the last end. */
  lemma {:induction false} AccumulatedPlusGaps(segs: seq<Segment>)
    requires |segs| >= 1
    ensures Accumulated(segs) + Gaps(segs) == TimeDiffNs(segs[0].begin, segs[|segs| - 1].stop)
  {
    if |segs| > 1 {
      AccumulatedPlusGaps(segs[1..]);
      assert segs[1..][0] == segs[1] && segs[1..][|segs| - 2] == segs[|segs| - 1];
      Telescope(segs[0].begin, segs[0].stop, segs[1].begin);
      Telescope(segs[0].begin, segs[1].begin, segs[|segs| - 1].stop);
    }
  }

  /** Dropping the first segment keeps a list time-ordered. */
  lemma OrderedTail(segs: seq<Segment>)
    requires segs != [] && Ordered(segs)
    ensures Ordered(segs[1..])
  {
    forall i | 0 <= i < |segs| - 2
      ensures LexLe(segs[1..][i].stop, segs[1..][i + 1].begin)
    {
      assert segs[1..][i] == segs[i + 1] && segs[1..][i + 1] == segs[i + 2];
    }
  }

  /** Gaps between time-ordered segments are never negative. */
  lemma {:induction false} GapsNonNegative(segs: seq<Segment>)
    requires Ordered(segs)
    ensures 0 <= Gaps(segs)
  {
    if |segs| >= 2 {
      OrderedTail(segs);
      GapsNonNegative(segs[1..]);
      assert LexLe(segs[0].stop, segs[1].begin);
    }
  }

  /** For time-ordered segments the running total is a natural number no larger than the
      whole span: time between segments is never counted. When the first and last readings
      are InCRange, the total therefore fits in the unsigned 64-bit `accumulated` field. */
  lemma AccumulatedWithinSpan(segs: seq<Segment>)
    requires |segs| >= 1 && Ordered(segs)
    ensures 0 <= Accumulated(segs) <= TimeDiffNs(segs[0].begin, segs[|segs| - 1].stop)
    ensures InCRange(segs[0].begin) && InCRange(segs[|segs| - 1].stop) ==>
              Accumulated(segs) <= Int64Max <= Uint64Max
  {
    AccumulatedNonNegative(segs);
    AccumulatedPlusGaps(segs);
    GapsNonNegative(segs);
    if InCRange(segs[0].begin) && InCRange(segs[|segs| - 1].stop) {
      NoInt64Overflow(segs[0].begin, segs[|segs| - 1].stop);
    }
  }

  /** Each segment of a time-ordered list contributes a non-negative amount. */
  lemma {:induction false} AccumulatedNonNegative(segs: seq<Segment>)
    requires Ordered(segs)
    ensures 0 <= Accumulated(segs)
  {
    if segs != [] {
      OrderedTail(segs);
      AccumulatedNonNegative(segs[1..]);
      assert LexLe(segs[0].begin, segs[0].stop);
    }
  }
}
