# Tick-interval conversion of the per-thread profiling timer

This project models the computable core of pprof-rs's `Timer` (`src/timer.rs`).
`Timer::new(frequency)` turns a frequency in ticks per second into a POSIX
`itimerspec`. The period is `1_000_000_000 / frequency` nanoseconds in `i64`
arithmetic. It is split into whole seconds (`tv_sec`) and a nanosecond
remainder (`tv_nsec`). That one timespec is both the reload interval
(`it_interval`) and the initial expiration (`it_value`). So, under POSIX
`timer_settime`, the first tick comes one full period after arming and then
repeats every period. The returned `Timer` record keeps the caller's frequency
and the handle `timer_create` produced. `Drop` passes that handle to
`timer_delete`.

Two modules:

- `RustInt` (`rust_int.dfy`): the `c_int` and `i64` ranges, and Rust's signed
  `/` and `%`, which round toward zero. Dafny's own `/` and `%` are Euclidean,
  so they are written out here. The lemmas characterise them independently:
  they recombine to the dividend and are the unique such pair.
- `Timer` (`timer.dfy`): the timespec records, the conversion, the `Timer`
  record, and the lemmas about them.

The only precondition is `frequency != 0`, because Rust panics on a division
by zero. Negative `c_int` frequencies are modelled too: with truncating
division they give a negated timespec. Linux `timer_settime` rejects it with
EINVAL: at -1 Hz the seconds part is negative, and from -2 to -1_000_000_000
Hz the nanosecond part is (`WellFormedIff`). The acceptance rule is Linux's,
because the timer builds only for Linux (`SIGEV_THREAD_ID`, `gettid`). Linux
also rejects a negative `tv_sec`, which POSIX alone does not.

For `|frequency| > 1_000_000_000` the interval truncates to zero. The code then
passes an all-zero `it_value` to `timer_settime`, and POSIX treats a zero
`it_value` as a request to disarm the timer. So no tick is ever delivered at
such frequencies. `ArmsIff` states that the timer is armed exactly for
frequencies from 1 to 1_000_000_000 Hz.

## Model

| member | source | states |
|---|---|---|
| RustInt.TruncDiv | src/timer.rs:29 | Rust's signed `/`: the quotient's magnitude times the divisor's brackets the dividend (rounding toward zero), and a non-zero quotient is negative exactly when the operand signs differ |
| RustInt.TruncRem | src/timer.rs:33 | Rust's signed `%`: the remainder is smaller than the divisor in magnitude and carries the dividend's sign |
| RustInt.DivisionIdentity | src/timer.rs:32-33 | `b * (a / b) + a % b == a` for Rust's truncating operators |
| RustInt.TruncDivUnique | src/timer.rs:32-33 | truncating division is the only quotient/remainder pair that recombines, has a smaller remainder, and keeps the dividend's sign |
| RustInt.TruncDivAgreesWithEuclidean | src/timer.rs:29 | for a non-negative dividend and a positive divisor, Rust's `/` and `%` equal Euclidean ones |
| RustInt.TruncDivNegatedDivisor | src/timer.rs:29 | negating the divisor negates the quotient and keeps the remainder |
| RustInt.TruncDivNegatedDividend | src/timer.rs:32-33 | negating the dividend negates quotient and remainder |
| Timer.IntervalNanos | src/timer.rs:29 | `1e9 as i64 / i64::from(frequency)`: the length of one period in whole nanoseconds, i.e. in magnitude the largest `i` with `i * |frequency| <= 1_000_000_000`; a non-zero result has the frequency's sign; magnitude at most 1_000_000_000; fits in `i64` |
| Timer.SplitNanos | src/timer.rs:31-34 | the timespec's seconds and nanoseconds recombine to the interval; `|tv_nsec| < 1_000_000_000` with the interval's sign; both fit in `i64` |
| Timer.TimerSpec | src/timer.rs:29-40 | `it_value == it_interval` (first tick after one full period) and the period is the computed interval |
| Timer.Expiration | src/timer.rs:37-40 | for an armed `itimerspec` (POSIX relative `timer_settime`), the `k`-th expiration comes `it_value + (k - 1) * it_interval` nanoseconds after arming; it exists beyond the first only when `it_interval` is not zero |
| Timer.New | src/timer.rs:28-68 | `Timer::new` returns a record that keeps the caller's `frequency` unchanged and the handle `timer_create` wrote. It also gives the `itimerspec` passed to `timer_settime`: `it_value == it_interval`, the period is the computed interval, and the spec arms the timer exactly when `0 < frequency <= 1_000_000_000` |
| Timer.DropReleasesCreatedHandle | src/timer.rs:64-76 | dropping a constructed timer passes to `timer_delete` exactly the handle its `timer_create` wrote; `Drop` reads nothing else |
| Timer.PositiveInterval | src/timer.rs:29 | for `frequency > 0` the interval is `1_000_000_000 / frequency` |
| Timer.TimespecIsCanonical | src/timer.rs:31-34 | for `frequency > 0`, the computed timespec is the only accepted timespec (`tv_sec >= 0`, `0 <= tv_nsec < 1_000_000_000`) that denotes the interval |
| Timer.PositiveSplit | src/timer.rs:29-34 | for `frequency > 0`: `0 <= tv_nsec < 1_000_000_000`, `tv_sec` is 0 or 1, `tv_sec == 1` exactly when `frequency == 1`, and then `tv_nsec == 0` |
| Timer.NegativeMirrorsPositive | src/timer.rs:29-34 | a negative frequency gives the negated interval and the negated timespec of its magnitude |
| Timer.NegativeSplit | src/timer.rs:29-34 | for `frequency < 0`: `-1_000_000_000 < tv_nsec <= 0`, `tv_sec` is -1 or 0, and -1 exactly when `frequency == -1` |
| Timer.WellFormedIff | src/timer.rs:29-40 | Linux `timer_settime` accepts the computed timespec (`tv_sec >= 0`, `tv_nsec` in `[0, 1_000_000_000)`) exactly when the frequency is positive or below -1_000_000_000 |
| Timer.ZeroIntervalIff | src/timer.rs:29-34 | for `frequency > 0` the interval (and the timespec) is zero exactly when `frequency > 1_000_000_000` |
| Timer.ArmsIff | src/timer.rs:37-40 | the computed `itimerspec` is accepted and has a non-zero `it_value`, so the timer stays armed, exactly when `0 < frequency <= 1_000_000_000` |
| Timer.TicksEveryPeriod | src/timer.rs:37-40 | for `0 < frequency <= 1_000_000_000`, the `k`-th tick of the constructed timer comes exactly `k` periods after arming: the first a full, non-zero period after arming, the rest one period apart |
| Timer.Examples | src/timer.rs:29-34 | 100 Hz gives `(0, 10_000_000)`, 2 Hz `(0, 500_000_000)`, 1 Hz `(1, 0)`, -1 Hz `(-1, 0)` |

## Left out

- `libc::gettid`, `libc::timer_create`, `libc::timer_settime` and `libc::timer_delete` (src/timer.rs:42, 50-62, 74): foreign OS calls whose effects, a kernel timer object and its signals, cannot be observed. `New` takes the handle `timer_create` wrote as a parameter, and `Drop` returns the handle `timer_delete` receives.
- The `sigevent` setup (`SIGALRM`, `SIGEV_THREAD_ID`, the target thread id; src/timer.rs:44-47): Linux signal plumbing for asynchronous delivery to one thread, which is concurrency.
- Result codes: the code only logs the results of `timer_create` and `timer_settime` and ignores the result of `timer_delete`. The model therefore has no error type, no rollback and no "acquired" flag.
- `eprintln!` logging (src/timer.rs:35, 56, 62): I/O.
- The `Timeval` and `Itimerval` structs (src/timer.rs:8-20): never used.
- Each `1e9 as i64` (src/timer.rs:29, 32, 33, 35) is taken as the exact integer 1_000_000_000, which is what the float literal converts to; no floating-point arithmetic is modelled.
- `Timer.IntervalNanos`, `Timer.TimerSpec` and `Timer.New` require `frequency != 0`: at zero, `Timer::new` panics on the division at src/timer.rs:29, and the panic is not modelled.
- `Timer.Expiration`: takes the POSIX reading of the timerspec as given; kernel timer slack, overruns and signal-delivery latency are not modelled.
- `Timer.Drop`: models only which handle is released. It does not model that Rust runs `Drop` exactly once per value, because that is a guarantee of the language's ownership rules, not of this code.
