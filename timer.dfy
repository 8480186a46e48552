/** The tick-interval conversion of the per-thread profiling timer and the
    `Timer` record it builds. A frequency in ticks per second becomes a POSIX
    `itimerspec` whose reload interval and initial expiration are both one
    period of `1_000_000_000 / frequency` nanoseconds, computed with Rust's
    truncating `i64` arithmetic. */
module Timer {
  import opened RustInt

  /** Each `1e9 as i64` in the conversion: the float literal converts to
      exactly this integer. */
  const NanosPerSecond: int := 1_000_000_000

  /** `libc::timespec` on 64-bit Linux: `tv_sec: time_t` and `tv_nsec: c_long`,
      both 64-bit signed. */
  datatype Timespec = Timespec(tvSec: int, tvNsec: int)

  /** `libc::itimerspec`: the reload interval and the initial expiration. */
  datatype Itimerspec = Itimerspec(itInterval: Timespec, itValue: Timespec)

  /** The opaque `timer_t` handle that `timer_create` writes through its
      out-pointer. */
  datatype TimerId = TimerId(handle: nat)

  /** The value `Timer::new` returns: the caller's frequency and the handle of
      the kernel timer object. */
  datatype Timer = Timer(frequency: CInt, timerid: TimerId)

  /** The duration a timespec denotes, in nanoseconds. */
  function Nanos(t: Timespec): int {
    t.tvSec * NanosPerSecond + t.tvNsec
  }

  function Negate(t: Timespec): Timespec {
    Timespec(-t.tvSec, -t.tvNsec)
  }

  /** A timespec that Linux `timer_settime` accepts. Linux, the only platform
      the timer builds for (it uses `SIGEV_THREAD_ID` and `gettid`), checks
      both fields of the `itimerspec` with `timespec64_valid`, and fails with
      EINVAL unless `tv_sec` is non-negative and `tv_nsec` lies in
      `[0, 1_000_000_000)`. POSIX asks for that `tv_nsec` check only when
      `it_value` is non-zero. */
  predicate WellFormed(t: Timespec) {
    0 <= t.tvSec && 0 <= t.tvNsec < NanosPerSecond
  }

  /** `timer_settime` accepts the spec and leaves the timer armed: both
      timespecs are accepted, and the `it_value` is not zero (a zero
      `it_value` disarms the timer). */
  predicate Arms(spec: Itimerspec) {
    WellFormed(spec.itInterval) && WellFormed(spec.itValue) && spec.itValue != Timespec(0, 0)
  }

  /** `1e9 as i64 / i64::from(frequency)`: the length of one period in whole
      nanoseconds. The widening from `c_int` is exact; a zero frequency panics
      in Rust. In magnitude the result is the largest `i` with
      `i * |frequency| <= 1_000_000_000` (the period rounded toward zero), its
      sign is the frequency's, and it never overflows an `i64`. */
  function IntervalNanos(frequency: int): (interval: int)
    requires frequency != 0
    ensures Abs(interval) * Abs(frequency) <= NanosPerSecond < (Abs(interval) + 1) * Abs(frequency)
    ensures interval == 0 || (interval > 0 <==> frequency > 0)
    ensures Abs(interval) <= NanosPerSecond
    ensures InI64(interval)
  {
    var q := TruncDiv(NanosPerSecond, frequency);
    AbsProductAtLeast(frequency, 1);
    QuotientTimesAtLeastOne(Abs(q), Abs(frequency), NanosPerSecond);
    q
  }

  /** `q * d <= n` with `d >= 1` bounds `q` by `n`. */
  lemma QuotientTimesAtLeastOne(q: nat, d: nat, n: int)
    requires d >= 1 && q * d <= n
    ensures q <= n
  {
    assert q * d >= q * 1;
  }

  /** `timespec { tv_sec: interval / 1e9 as i64, tv_nsec: interval % 1e9 as i64 }`:
      whole seconds and the nanosecond remainder, both truncating. */
  function SplitNanos(interval: int): (t: Timespec)
    requires InI64(interval)
    ensures Nanos(t) == interval
    ensures Abs(t.tvNsec) < NanosPerSecond
    ensures t.tvNsec == 0 || (t.tvNsec < 0 <==> interval < 0)
    ensures InI64(t.tvSec) && InI64(t.tvNsec)
  {
    var sec := TruncDiv(interval, NanosPerSecond);
    var nsec := TruncRem(interval, NanosPerSecond);
    DivisionIdentity(interval, NanosPerSecond);
    Timespec(sec, nsec)
  }

  /** The `itimerspec` that `Timer::new` passes to `timer_settime`: the
      initial expiration is the reload interval, so the first tick comes one
      full period after arming, and the period is the computed interval. */
  function TimerSpec(frequency: int): (spec: Itimerspec)
    requires frequency != 0
    ensures spec.itValue == spec.itInterval
    ensures Nanos(spec.itInterval) == IntervalNanos(frequency)
  {
    var it := SplitNanos(IntervalNanos(frequency));
    Itimerspec(it, it)
  }

  /** The schedule a relative `timer_settime` arms (POSIX `timer_settime`):
      the first expiration comes `it_value` after arming and each later one
      `it_interval` after the previous. `Expiration(spec, k)` is the time of
      the `k`-th expiration, counted from 1, in nanoseconds after arming. It
      exists only for an armed spec, and beyond the first only when the
      interval is not zero (a zero interval makes a one-shot timer). */
  function Expiration(spec: Itimerspec, k: nat): (at: int)
    requires Arms(spec)
    requires k == 1 || (k > 1 && spec.itInterval != Timespec(0, 0))
    ensures at == Nanos(spec.itValue) + (k - 1) * Nanos(spec.itInterval)
    decreases k
  {
    if k == 1 then Nanos(spec.itValue)
    else
      var earlier := Expiration(spec, k - 1);
      assert (k - 1) * Nanos(spec.itInterval) == (k - 2) * Nanos(spec.itInterval) + Nanos(spec.itInterval);
      earlier + Nanos(spec.itInterval)
  }

  /** What `Timer::new` produces: the returned record and the `itimerspec` it
      passed to `timer_settime`. */
  datatype Construction = Construction(timer: Timer, armedWith: Itimerspec)

  /** `Timer::new` without its system calls: `created` is the handle that
      `timer_create` wrote. The timer is armed with one period as both the
      initial expiration and the reload interval; it stays armed exactly for
      frequencies from 1 to 1_000_000_000. The frequency is recorded
      unchanged; no later operation replaces it, since the record is an
      immutable value. */
  function New(frequency: CInt, created: TimerId): (c: Construction)
    requires frequency != 0
    ensures c.timer.frequency == frequency && c.timer.timerid == created
    ensures c.armedWith.itValue == c.armedWith.itInterval
    ensures Nanos(c.armedWith.itInterval) == IntervalNanos(frequency)
    ensures Arms(c.armedWith) <==> 0 < frequency <= NanosPerSecond
  {
    ArmsIff(frequency);
    Construction(Timer(frequency, created), TimerSpec(frequency))
  }

  /** `Drop for Timer`: the handle passed to `timer_delete`. Dropping reads the
      handle and nothing else. */
  function Drop(t: Timer): TimerId {
    t.timerid
  }

  /** Dropping a constructed timer releases exactly the handle its
      `timer_create` wrote. */
  lemma DropReleasesCreatedHandle(frequency: CInt, created: TimerId)
    requires frequency != 0
    ensures Drop(New(frequency, created).timer) == created
  {
  }

  /** For a positive frequency the interval is Euclidean `1_000_000_000 / frequency`. */
  lemma PositiveInterval(frequency: int)
    requires frequency > 0
    ensures IntervalNanos(frequency) == NanosPerSecond / frequency
  {
    TruncDivAgreesWithEuclidean(NanosPerSecond, frequency);
  }

  /** For a positive frequency the computed timespec is the only accepted
      timespec that denotes the interval: splitting by truncating `/` and `%`
      is the normalised form. */
  lemma TimespecIsCanonical(frequency: int, t: Timespec)
    requires frequency > 0
    requires WellFormed(t) && Nanos(t) == IntervalNanos(frequency)
    ensures t == TimerSpec(frequency).itInterval
  {
    PositiveSplit(frequency);
  }

  /** For a positive frequency: the nanosecond part is within bounds, the
      seconds part is 0 or 1, and it is 1 (with no nanoseconds) exactly at
      one tick per second. */
  lemma PositiveSplit(frequency: int)
    requires frequency > 0
    ensures var t := TimerSpec(frequency).itInterval;
      && 0 <= t.tvNsec < NanosPerSecond
      && 0 <= t.tvSec <= 1
      && (t.tvSec == 1 <==> frequency == 1)
      && (t.tvSec == 1 ==> t.tvNsec == 0)
  {
    var interval := IntervalNanos(frequency);
    var t := TimerSpec(frequency).itInterval;
    assert t == SplitNanos(interval);
    assert 0 <= interval <= NanosPerSecond;
    TruncDivAgreesWithEuclidean(interval, NanosPerSecond);
    assert t.tvSec == interval / NanosPerSecond && t.tvNsec == interval % NanosPerSecond;
    if frequency == 1 {
      assert interval == NanosPerSecond;
    } else {
      IntervalBelowSecond(frequency);
    }
  }

  /** Two or more ticks per second give a period shorter than a second. */
  lemma IntervalBelowSecond(frequency: int)
    requires frequency >= 2
    ensures IntervalNanos(frequency) < NanosPerSecond
  {
    var interval := IntervalNanos(frequency);
    assert 0 <= interval && interval * frequency <= NanosPerSecond;
    assert interval * 2 <= interval * frequency;
  }

  /** The conversion is odd in the frequency: a negative frequency gives the
      negated timespec of its magnitude (Rust's `/` and `%` truncate). */
  lemma NegativeMirrorsPositive(frequency: int)
    requires frequency < 0
    ensures IntervalNanos(frequency) == -IntervalNanos(-frequency)
    ensures TimerSpec(frequency).itInterval == Negate(TimerSpec(-frequency).itInterval)
  {
    TruncDivNegatedDivisor(NanosPerSecond, -frequency);
    TruncDivNegatedDividend(IntervalNanos(-frequency), NanosPerSecond);
  }

  /** For a negative frequency both halves are non-positive: the seconds part
      is -1 or 0 and the nanosecond part lies in `(-1_000_000_000, 0]`. */
  lemma NegativeSplit(frequency: int)
    requires frequency < 0
    ensures var t := TimerSpec(frequency).itInterval;
      && -NanosPerSecond < t.tvNsec <= 0
      && -1 <= t.tvSec <= 0
      && (t.tvSec == -1 <==> frequency == -1)
  {
    NegativeMirrorsPositive(frequency);
    PositiveSplit(-frequency);
    var t, u := TimerSpec(frequency).itInterval, TimerSpec(-frequency).itInterval;
    assert t.tvSec == -u.tvSec && t.tvNsec == -u.tvNsec;
  }

  /** Linux `timer_settime` accepts the computed timespec exactly when the
      frequency is positive, or so negative that the interval truncates to
      zero. At -1 Hz the seconds part is negative; from -2 to -1_000_000_000
      Hz the nanosecond part is. */
  lemma WellFormedIff(frequency: int)
    requires frequency != 0
    ensures WellFormed(TimerSpec(frequency).itInterval) <==> frequency > 0 || frequency < -NanosPerSecond
  {
    if frequency > 0 {
      PositiveSplit(frequency);
    } else {
      var t, u := TimerSpec(frequency).itInterval, TimerSpec(-frequency).itInterval;
      NegativeMirrorsPositive(frequency);
      assert t.tvSec == -u.tvSec && t.tvNsec == -u.tvNsec;
      PositiveSplit(-frequency);
      ZeroIntervalIff(-frequency);
      if frequency == -1 {
        assert t.tvSec == -1;
      } else if frequency < -NanosPerSecond {
        assert u == Timespec(0, 0);
      } else {
        assert u != Timespec(0, 0) && u.tvSec == 0;
        assert t.tvNsec < 0;
      }
    }
  }

  /** The split of an interval is zero exactly when the interval is. */
  lemma SplitZeroIff(interval: int)
    requires InI64(interval)
    ensures SplitNanos(interval) == Timespec(0, 0) <==> interval == 0
  {
    if interval == 0 {
      assert TruncDiv(0, NanosPerSecond) == 0 && TruncRem(0, NanosPerSecond) == 0;
    }
  }

  /** For a positive frequency the interval truncates to zero exactly when the
      frequency exceeds one tick per nanosecond. */
  lemma ZeroIntervalIff(frequency: int)
    requires frequency > 0
    ensures TimerSpec(frequency).itInterval == Timespec(0, 0) <==> frequency > NanosPerSecond
    ensures IntervalNanos(frequency) == 0 <==> frequency > NanosPerSecond
  {
    var interval := IntervalNanos(frequency);
    assert TimerSpec(frequency).itInterval == SplitNanos(interval);
    SplitZeroIff(interval);
    if frequency <= NanosPerSecond {
      assert 1 * frequency <= NanosPerSecond;
    }
  }

  /** `timer_settime` accepts the computed timerspec and leaves the timer
      armed exactly for frequencies from 1 to 1_000_000_000 Hz. Above that the
      interval is zero and the timer is disarmed; for negative frequencies the
      spec is rejected or, below -1_000_000_000 Hz, zero. */
  lemma ArmsIff(frequency: int)
    requires frequency != 0
    ensures Arms(TimerSpec(frequency)) <==> 0 < frequency <= NanosPerSecond
  {
    var spec := TimerSpec(frequency);
    WellFormedIff(frequency);
    if frequency > 0 {
      ZeroIntervalIff(frequency);
    } else if frequency < -NanosPerSecond {
      var interval := IntervalNanos(frequency);
      assert spec.itValue == SplitNanos(interval);
      NegativeMirrorsPositive(frequency);
      ZeroIntervalIff(-frequency);
      SplitZeroIff(interval);
    }
  }

  /** For a frequency at which the timer stays armed, the `k`-th tick of the
      constructed timer comes exactly `k` periods after arming: the first one
      a full period after arming, never sooner, and the rest one period
      apart. */
  lemma TicksEveryPeriod(frequency: CInt, created: TimerId, k: nat)
    requires 0 < frequency <= NanosPerSecond && k >= 1
    ensures var spec := New(frequency, created).armedWith;
      && Expiration(spec, k) == k * IntervalNanos(frequency)
      && Expiration(spec, 1) == IntervalNanos(frequency) > 0
      && Expiration(spec, k + 1) - Expiration(spec, k) == IntervalNanos(frequency)
  {
    ZeroIntervalIff(frequency);
  }

  /** Concrete conversions: 100 Hz, 2 Hz, 1 Hz and -1 Hz. */
  lemma Examples()
    ensures TimerSpec(100).itInterval == Timespec(0, 10_000_000)
    ensures TimerSpec(2).itInterval == Timespec(0, 500_000_000)
    ensures TimerSpec(1).itInterval == Timespec(1, 0)
    ensures TimerSpec(-1).itInterval == Timespec(-1, 0)
  {
  }
}
