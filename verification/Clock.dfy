/** The system clock and the time kept for the soft timer (arch/x86/lib/clock.c and timer.c.h). */
module Clock {
  const NSEC_PER_SEC: int := 1_000_000_000
  const TICK_NSEC: int := 10_000_000  // 100 Hz
  const UINT64: int := 0x1_0000_0000_0000_0000

  datatype Timespec = Timespec(sec: int, nsec: int) {
    predicate Normalized() {
      0 <= sec && 0 <= nsec < NSEC_PER_SEC
    }

    function Total(): int {
      sec * NSEC_PER_SEC + nsec
    }
  }

  const ZERO: Timespec := Timespec(0, 0)

  /** One tick of clock.c:71-77. */
  function Ticked(t: Timespec): Timespec {
    var nsec := t.nsec + TICK_NSEC;
    if nsec % NSEC_PER_SEC == 0 then Timespec((t.sec + 1) % UINT64, 0) else t.(nsec := nsec)
  }

  function TickedTimes(k: nat): (t: Timespec)
    ensures t.Normalized() && t.sec < UINT64 && t.nsec % TICK_NSEC == 0
  {
    if k == 0 then ZERO else Ticked(TickedTimes(k - 1))
  }

  lemma NextTick(k: nat)
    ensures TickedTimes(k + 1) == Ticked(TickedTimes(k))
  {}

  /** The clock after any number of ticks, the wrap of the seconds included. */
  lemma {:induction false} TicksClosedForm(k: nat)
    ensures TickedTimes(k) == Timespec(k / 100 % 0x1_0000_0000_0000_0000, k % 100 * 10_000_000)
  {
    if k > 0 {
      TicksClosedForm(k - 1);
      var q, r := (k - 1) / 100, (k - 1) % 100;
      assert k - 1 == 100 * q + r;
      SecondEnds(r);
      WrapNext(q);
      if r == 99 {
        assert k / 100 == q + 1 && k % 100 == 0;
      } else {
        assert k / 100 == q && k % 100 == r + 1;
      }
    }
  }

  lemma SecondEnds(r: nat)
    requires r < 100
    ensures (r * TICK_NSEC + TICK_NSEC) % NSEC_PER_SEC == 0 <==> r == 99
  {
    if r < 99 {
      assert 0 < r * TICK_NSEC + TICK_NSEC < NSEC_PER_SEC;
    }
  }

  lemma WrapNext(q: nat)
    ensures (q % UINT64 + 1) % UINT64 == (q + 1) % UINT64
  {}

  /** The clock shows the time passed exactly until its seconds wrap. */
  lemma ClockExactIff(k: nat)
    ensures TickedTimes(k).Total() == k * TICK_NSEC <==> k < 100 * UINT64
  {
    var q, r := k / 100, k % 100;
    var s := q % UINT64;
    assert TickedTimes(k) == Timespec(s, r * TICK_NSEC) by { TicksClosedForm(k); }
    assert k == 100 * q + r;
    assert s == q <==> q < UINT64 by { WrapExact(q); }
    assert TickedTimes(k).Total() == s * NSEC_PER_SEC + r * TICK_NSEC;
    assert k * TICK_NSEC == q * NSEC_PER_SEC + r * TICK_NSEC;
  }

  lemma WrapExact(q: nat)
    ensures q % UINT64 == q <==> q < UINT64
  {}

  /** clock_gettime reads the seconds before the nanoseconds. If a tick comes in between, what it reads
      is a time between the two exactly when that tick does not start a new second. */
  lemma TornReadIff(k: nat)
    requires k + 1 < 100 * UINT64
    ensures var read := Timespec(TickedTimes(k).sec, TickedTimes(k + 1).nsec);
      k * TICK_NSEC <= read.Total() <= (k + 1) * TICK_NSEC <==> (k + 1) % 100 != 0
  {
    var q, r := k / 100, k % 100;
    assert k == 100 * q + r;
    assert TickedTimes(k).sec == q by { TicksClosedForm(k); WrapExact(q); }
    if r == 99 {
      assert (k + 1) / 100 == q + 1 && (k + 1) % 100 == 0;
    } else {
      assert (k + 1) / 100 == q && (k + 1) % 100 == r + 1;
    }
    assert TickedTimes(k + 1).nsec == (k + 1) % 100 * TICK_NSEC by { TicksClosedForm(k + 1); }
  }

  datatype Kind = OneShot | AutoRewind

  /** The clock, and softtimer0, which its interrupt counts for. */
  class SystemClock {
    var clkTics: int
    var sysclock: Timespec
    // softtimer0
    var wait: Timespec
    var spent: Timespec
    var kind: Kind
    var stop: bool
    ghost var ticks: nat  // since the clock was initialised

    ghost predicate Valid()
      reads this
    {
      clkTics == ticks % UINT64 && sysclock == TickedTimes(ticks)
    }

    /** i86_clock_init, clock.c:26-30; softtimer0 is a static, hence zero, hence not stopped. */
    constructor ()
      ensures Valid() && ticks == 0 && spent == ZERO && !stop
    {
      clkTics, sysclock := 0, ZERO;
      wait, spent, kind, stop := ZERO, ZERO, OneShot, false;
      ticks := 0;
    }

    /** clock.c:67-89 */
    method IsrClockInt()
      requires Valid()
      modifies this`clkTics, this`sysclock, this`spent, this`ticks
      ensures Valid() && ticks == old(ticks) + 1
      ensures spent == if stop then old(spent) else Ticked(old(spent))
    {
      hide TickedTimes;
      NextTick(ticks);
      clkTics := (clkTics + 1) % UINT64;

      sysclock := sysclock.(nsec := sysclock.nsec + TICK_NSEC);
      if sysclock.nsec % NSEC_PER_SEC == 0 {
        sysclock := Timespec((sysclock.sec + 1) % UINT64, 0);
      }
      ticks := ticks + 1;

      if !stop {
        spent := spent.(nsec := spent.nsec + TICK_NSEC);
        if spent.nsec % NSEC_PER_SEC == 0 {
          spent := Timespec((spent.sec + 1) % UINT64, 0);
        }
      }
    }

    /** clock.c:58-62, with no tick in between. */
    method ClockGetTime() returns (timestamp: Timespec)
      requires Valid()
      ensures timestamp == TickedTimes(ticks) && timestamp.Normalized()
      ensures timestamp.Total() == ticks * TICK_NSEC <==> ticks < 100 * UINT64
    {
      TicksClosedForm(ticks);
      ClockExactIff(ticks);
      timestamp := Timespec(sysclock.sec, sysclock.nsec);
    }

    /** timer.c.h:31-40 */
    method TimerWind(kind: Kind, wait: Timespec)
      modifies this`wait, this`spent, this`kind, this`stop
      ensures stop && spent == ZERO && this.kind == kind && this.wait == wait
    {
      stop := true;
      spent := ZERO;
      this.kind := kind;
      this.wait := wait;
    }

    /** timer.c.h:44-46, before the interrupt that waits */
    method TimerArm()
      modifies this`spent, this`stop
      ensures !stop && spent == ZERO
    {
      spent := ZERO;
      stop := false;
    }

    /** timer.c.h:54-57 */
    method TimerDisarm()
      modifies this`stop
      ensures stop
    {
      stop := true;
    }
  }
}
