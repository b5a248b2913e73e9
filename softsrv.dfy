/** The demo's main program: its start-up and the fixed-timestep
    accumulator `freq_call`, which runs the update callback once for every
    whole period of time that has passed.

    Times are seconds as exact reals (the source keeps them in `double`;
    rounding is not modelled).  `platform::time()` is an input: each call
    of `FreqCall` takes the time it reads as a parameter.  The callback is
    recorded, not run: `FreqCall` returns the arguments it would have been
    called with, in order. */
module Softsrv {
  import opened Framebuffer

  /** The state of one timed callback (`freq_t`): the period `ms`, the
      time read at the latest call, the time the previous call consumed up
      to, and the time accumulated but not yet handed to the callback. */
  class Freq {
    var ms: real
    var now: real
    var last: real
    var accum: real

    constructor (ms: real, now: real, last: real, accum: real)
      ensures this.ms == ms && this.now == now && this.last == last && this.accum == accum
    {
      this.ms, this.now, this.last, this.accum := ms, now, last, accum;
    }
  }

  /** The number of times `freq_call`'s loop subtracts `ms` from an
      accumulator holding `s`: none when `s` is below one period, and
      otherwise the number of whole periods in `s`. */
  function Ticks(s: real, ms: real): (n: nat)
    requires ms > 0.0
    ensures s < ms <==> n == 0
  {
    if s < ms then 0
    else
      FloorScaled(s, ms);
      (s / ms).Floor
  }

  /** The floor of `s / ms`, scaled back by `ms`, brackets `s`. */
  lemma FloorScaled(s: real, ms: real)
    requires ms > 0.0
    ensures var q := (s / ms).Floor;
      q as real * ms <= s < (q + 1) as real * ms
    ensures s >= ms ==> (s / ms).Floor >= 1
  {
    var r := s / ms;
    var q := r.Floor;
    assert s == r * ms;
    assert q as real <= r < (q + 1) as real;
    ScaleLe(q as real, r, ms);
    ScaleLt(r, (q + 1) as real, ms);
    assert q as real * ms <= s;
    assert s < (q + 1) as real * ms;
    if s >= ms {
      assert r >= 1.0 by {
        if r < 1.0 {
          ScaleLt(r, 1.0, ms);
        }
      }
    }
  }

  lemma Succ(n: int, ms: real)
    ensures (n + 1) as real * ms == n as real * ms + ms
  {
  }

  lemma ScaleLe(a: real, b: real, c: real)
    requires a <= b && c > 0.0
    ensures a * c <= b * c
  {
  }

  lemma ScaleLt(a: real, b: real, c: real)
    requires a < b && c > 0.0
    ensures a * c < b * c
  {
  }

  /** The time `n` whole periods of length `ms` make up. */
  function Periods(n: nat, ms: real): (r: real)
    ensures ms >= 0.0 ==> r >= 0.0
  {
    if n == 0 then 0.0 else Periods(n - 1, ms) + ms
  }

  lemma {:induction false} PeriodsProduct(n: nat, ms: real)
    ensures Periods(n, ms) == n as real * ms
  {
    if n > 0 {
      PeriodsProduct(n - 1, ms);
      Succ(n - 1, ms);
    }
  }

  /** Periods handed out in two stretches add up. */
  lemma {:induction false} PeriodsAdd(n: nat, m: nat, ms: real)
    ensures Periods(n + m, ms) == Periods(n, ms) + Periods(m, ms)
  {
    if m > 0 {
      PeriodsAdd(n, m - 1, ms);
    }
  }

  /** For a non-negative amount of time, `Ticks` whole periods fit into
      it and one more does not. */
  lemma TicksBounds(s: real, ms: real)
    requires ms > 0.0 && s >= 0.0
    ensures Periods(Ticks(s, ms), ms) <= s < Periods(Ticks(s, ms) + 1, ms)
  {
    var t := Ticks(s, ms);
    if s >= ms {
      FloorScaled(s, ms);
    }
    PeriodsProduct(t, ms);
    PeriodsProduct(t + 1, ms);
  }

  /** More periods make up strictly more time, by at least one period. */
  lemma PeriodsMono(n: nat, m: nat, ms: real)
    requires n < m && ms >= 0.0
    ensures Periods(n, ms) + ms <= Periods(m, ms)
  {
    PeriodsAdd(n + 1, m - n - 1, ms);
  }

  /** Whatever the accumulator held, the callback has run once per whole
      period exactly when what is left lies in [0, ms): the count that
      leaves the accumulator in that range is `Ticks`. */
  lemma TicksUnique(s: real, ms: real, n: nat)
    requires ms > 0.0
    requires 0.0 <= s - Periods(n, ms) < ms
    ensures n == Ticks(s, ms)
  {
    var t := Ticks(s, ms);
    TicksBounds(s, ms);
    if n < t {
      PeriodsMono(n, t, ms);
    } else if t < n {
      PeriodsMono(t, n, ms);
    }
  }

  /** While at least one period remains after `n` runs, the loop has not
      yet reached `Ticks` runs. */
  lemma TicksAbove(s: real, ms: real, n: nat)
    requires ms > 0.0
    requires s - Periods(n, ms) >= ms
    ensures n + 1 <= Ticks(s, ms)
  {
    var t := Ticks(s, ms);
    TicksBounds(s, ms);
    if t < n {
      PeriodsMono(t, n, ms);
    }
  }

  /** A non-negative amount of time leaves a non-negative remainder. */
  lemma TicksRemainder(s: real, ms: real)
    requires ms > 0.0 && s >= 0.0
    ensures 0.0 <= s - Periods(Ticks(s, ms), ms) < ms
  {
    TicksBounds(s, ms);
  }

  /** The loop of `freq_call` runs `n` times on an accumulator holding
      `s`: before each of the `n` runs at least one period was left (it is
      enough to say so of the last run, since the accumulator only
      shrinks), and after them less than one is. */
  ghost predicate Runs(s: real, ms: real, n: nat)
    ensures Runs(s, ms, n) && n > 0 ==> s >= Periods(n, ms)
  {
    && (n > 0 ==> s - Periods(n - 1, ms) >= ms)
    && s - Periods(n, ms) < ms
  }

  /** The loop's run count is the closed form: `Runs` holds of exactly one
      count, `Ticks`. */
  lemma RunsTicks(s: real, ms: real, n: nat)
    requires ms > 0.0
    ensures Runs(s, ms, n) <==> n == Ticks(s, ms)
  {
    if Runs(s, ms, n) && n > 0 {
      TicksUnique(s, ms, n);
    }
    if n == Ticks(s, ms) && s >= ms {
      TicksBounds(s, ms);
    }
  }

  /** `freq_call`: read the time `t`, add the time elapsed since the last
      call to the accumulator, and hand whole periods to the callback until
      less than one is left.  The callback's arguments are returned. */
  method FreqCall(freq: Freq, t: real) returns (calls: seq<real>)
    requires freq.ms > 0.0
    modifies freq
    ensures freq.now == t && freq.last == t && freq.ms == old(freq.ms)
    ensures Runs(old(freq.accum) + (t - old(freq.last)), freq.ms, |calls|)
    ensures |calls| == Ticks(old(freq.accum) + (t - old(freq.last)), freq.ms)
    ensures forall i :: 0 <= i < |calls| ==> calls[i] == freq.ms
    ensures freq.accum == old(freq.accum) + (t - old(freq.last)) - Periods(|calls|, freq.ms)
    ensures freq.accum < freq.ms
    ensures old(freq.accum) + (t - old(freq.last)) >= 0.0 ==> freq.accum >= 0.0
  {
    freq.now := t;
    freq.accum := freq.accum + (freq.now - freq.last);
    freq.last := freq.now;

    ghost var s := freq.accum;
    calls := [];
    while freq.accum >= freq.ms
      invariant freq.now == t && freq.last == t && freq.ms == old(freq.ms)
      invariant freq.accum == s - Periods(|calls|, freq.ms)
      invariant |calls| <= Ticks(s, freq.ms)
      invariant |calls| > 0 ==> s - Periods(|calls| - 1, freq.ms) >= freq.ms
      invariant forall i :: 0 <= i < |calls| ==> calls[i] == freq.ms
      decreases Ticks(s, freq.ms) - |calls|
    {
      TicksAbove(s, freq.ms, |calls|);
      calls := calls + [freq.ms];
      freq.accum := freq.accum - freq.ms;
    }
    if s >= 0.0 {
      TicksRemainder(s, freq.ms);
    }
    RunsTicks(s, freq.ms, |calls|);
  }

  /** The demo's window size and update rate. */
  const Width := 800
  const Height := 600
  const Framerate := 300

  /** The update period, one three-hundredth of a second. */
  function Period(): (p: real)
    ensures p > 0.0 && p * Framerate as real == 1.0
  {
    1.0 / Framerate as real
  }

  /** `main`'s set-up of `update_freq` as written: the period and the start
      time are set, but `now` and `accum` keep whatever the uninitialised
      struct held, given here as `junkNow` and `junkAccum`. */
  method InitAsWritten(t0: real, junkNow: real, junkAccum: real) returns (freq: Freq)
    ensures fresh(freq)
    ensures freq.ms == Period() && freq.last == t0 && freq.now == junkNow && freq.accum == junkAccum
  {
    freq := new Freq(Period(), junkNow, t0, junkAccum);
  }

  /** The set-up with the accumulator initialised to zero, which is what
      the fixed-timestep scheme needs. */
  method Init(t0: real) returns (freq: Freq)
    ensures fresh(freq)
    ensures freq.ms == Period() && freq.last == t0 && freq.accum == 0.0
  {
    freq := new Freq(Period(), t0, t0, 0.0);
  }

  /** With the uninitialised accumulator holding -1.0, one second after
      start the first `freq_call` runs the update no times instead of 300;
      holding 10.0, it runs it 3000 times with no time elapsed at all. */
  lemma UninitialisedAccum()
    ensures Ticks(-1.0 + 1.0, Period()) == 0
    ensures Ticks(0.0 + 1.0, Period()) == 300
    ensures Ticks(10.0 + 0.0, Period()) == 3000
    ensures Ticks(0.0 + 0.0, Period()) == 0
  {
  }

  /** Non-decreasing clock readings, none before `t0`. */
  predicate Monotone(t0: real, times: seq<real>)
  {
    && (forall i :: 0 <= i < |times| ==> t0 <= times[i])
    && (forall i, j :: 0 <= i < j < |times| ==> times[i] <= times[j])
  }

  /** The time of the latest reading, `t0` when there is none. */
  function Latest(t0: real, times: seq<real>): (t: real)
  {
    if times == [] then t0 else times[|times| - 1]
  }

  /** The next reading is no earlier than the latest one, and becomes the
      latest. */
  lemma LatestStep(t0: real, times: seq<real>, k: int)
    requires Monotone(t0, times) && 0 <= k < |times|
    ensures Latest(t0, times[..k]) <= times[k]
    ensures Latest(t0, times[..k + 1]) == times[k]
  {
    if k > 0 {
      assert times[..k][k - 1] == times[k - 1];
    }
    assert times[..k + 1][k] == times[k];
  }

  /** Two stretches of accumulation add up: what the accumulator holds
      after a further call is the start value plus all the time elapsed
      minus all the periods handed out. */
  lemma Telescope(a0: real, t0: real, a: real, last: real, n: nat, a': real, t: real, m: nat, ms: real)
    requires a == a0 + (last - t0) - Periods(n, ms)
    requires a' == a + (t - last) - Periods(m, ms)
    ensures a' == a0 + (t - t0) - Periods(n + m, ms)
  {
    PeriodsAdd(n, m, ms);
  }

  /** One pass of the main loop, `freq_call(update, update_freq)` at the
      time `t` (polling the window is not modelled): it keeps the
      accumulator in [0, ms) and accounts for every period handed out. */
  method Pass(freq: Freq, t: real) returns (calls: seq<real>)
    requires freq.ms > 0.0 && 0.0 <= freq.accum < freq.ms && freq.last <= t
    modifies freq
    ensures freq.ms == old(freq.ms) && freq.now == t && freq.last == t
    ensures 0.0 <= freq.accum < freq.ms
    ensures freq.accum == old(freq.accum) + (t - old(freq.last)) - Periods(|calls|, freq.ms)
    ensures forall i :: 0 <= i < |calls| ==> calls[i] == freq.ms
  {
    calls := FreqCall(freq, t);
  }

  /** The main loop: one `freq_call` per reading in `times` (one per pass
      of `while (!platform::should_quit())`).  Starting from an
      accumulator in [0, ms), the callback runs once per whole period in
      the accumulator plus the total time elapsed, however that time was
      split among the calls. */
  method Loop(freq: Freq, times: seq<real>) returns (calls: seq<real>)
    requires freq.ms > 0.0 && 0.0 <= freq.accum < freq.ms
    requires Monotone(freq.last, times)
    modifies freq
    ensures freq.ms == old(freq.ms) && freq.last == Latest(old(freq.last), times)
    ensures |calls| == Ticks(old(freq.accum) + (freq.last - old(freq.last)), freq.ms)
    ensures forall i :: 0 <= i < |calls| ==> calls[i] == freq.ms
    ensures 0.0 <= freq.accum < freq.ms
    ensures freq.accum == old(freq.accum) + (freq.last - old(freq.last)) - Periods(|calls|, freq.ms)
    ensures times != [] ==> freq.now == freq.last
    ensures times == [] ==> freq.now == old(freq.now)
  {
    ghost var a0, t0, n0 := freq.accum, freq.last, freq.now;
    calls := [];
    for k := 0 to |times|
      invariant freq.ms == old(freq.ms) && freq.last == Latest(t0, times[..k])
      invariant 0.0 <= freq.accum < freq.ms
      invariant freq.accum == a0 + (freq.last - t0) - Periods(|calls|, freq.ms)
      invariant forall i :: 0 <= i < |calls| ==> calls[i] == freq.ms
      invariant k > 0 ==> freq.now == freq.last
      invariant k == 0 ==> freq.now == n0
    {
      LatestStep(t0, times, k);
      ghost var a, n := freq.accum, |calls|;
      var more := Pass(freq, times[k]);
      Telescope(a0, t0, a, Latest(t0, times[..k]), n, freq.accum, times[k], |more|, freq.ms);
      calls := calls + more;
    }
    assert times[..|times|] == times;
    TicksUnique(a0 + (freq.last - t0), freq.ms, |calls|);
  }

  /** Start-up and main loop with the accumulator initialised: the colour
      and depth buffers of an 800 by 600 framebuffer are created, and after
      the readings `times` the update has run once per whole period since
      `t0`, always with the period as its argument. */
  method Run(t0: real, times: seq<real>) returns (fb: Framebuffer, calls: seq<real>)
    requires Monotone(t0, times)
    ensures fb.Valid() && fb.width == Width && fb.height == Height
    ensures |calls| == Ticks(Latest(t0, times) - t0, Period())
    ensures forall i :: 0 <= i < |calls| ==> calls[i] == Period()
  {
    fb := Create(Width, Height);
    var freq := Init(t0);
    calls := Loop(freq, times);
  }

  /** The first pass of the main loop as written: the update runs once per
      whole period in the junk accumulator plus the time elapsed. */
  method FirstPassAsWritten(t0: real, junkNow: real, junkAccum: real, t1: real) returns (calls: seq<real>)
    ensures |calls| == Ticks(junkAccum + (t1 - t0), Period())
  {
    var freq := InitAsWritten(t0, junkNow, junkAccum);
    calls := FreqCall(freq, t1);
    RunsTicks(junkAccum + (t1 - t0), Period(), |calls|);
  }
}
