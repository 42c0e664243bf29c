/** The soft timer that rewinds itself (arch/x86/lib/timer.c.h:59-98): it goes on firing, period after
    period and after every history. */
module AutoRewind {
  import opened Clock
  import opened SoftTimer

  /** Ticks, with time for the waiter to run its handler, rewind and get back to its hlt behind each. */
  function Beats(n: nat): (es: seq<Event>)
    ensures Disarm !in es
  {
    if n == 0 then [] else [ClockTick] + Steps(18) + Beats(n - 1)
  }

  lemma OneBeat(s: State, n: nat)
    requires n > 0
    ensures Run(s, Beats(n)) == Run(Run(Next(s, ClockTick), Steps(18)), Beats(n - 1))
  {
    hide Run, Next;
    RunAppend(s, [ClockTick] + Steps(18), Beats(n - 1));
    FirstTick(s, Steps(18));
  }

  lemma FirstTick(s: State, es: seq<Event>)
    ensures Run(s, [ClockTick] + es) == Run(Next(s, ClockTick), es)
  {
    hide Next;
    assert ([ClockTick] + es)[1..] == es;
  }

  lemma {:induction false} BeatsAppend(m: nat, n: nat)
    ensures Beats(m + n) == Beats(m) + Beats(n)
  {
    if m > 0 {
      BeatsAppend(m - 1, n);
    }
  }

  // ---------------------------------------------------------------- one round of the outer loop

  /** What the waiter comes to when its time has come: the handler has run, and it waits anew. */
  function Rewound(s: State): State {
    s.(pc := Halted, spent := ZERO, stop := false, armed := 0, disarmed := false,
       firings := s.firings + [Firing(s.spent, s.armed, s.disarmed)])
  }

  /** From the return of the handler to the next hlt. */
  lemma RewindHalts(s: State, k: nat)
    requires s.pc == AfterFire && s.kind == AutoRewind && s.stop && k >= 12
    requires s.wait.Normalized() && s.wait.Total() > 0
    ensures Run(s, Steps(k)) == s.(pc := Halted, spent := ZERO, stop := false, armed := 0, disarmed := false)
  {
    hide Run, Steps, Advance, Exits;
    RewindRuns(s, k);
    ZeroWaits(s.wait);
    WaitingHalts(s.(pc := CheckStop, spent := ZERO, stop := false, armed := 0, disarmed := false), k - 4);
  }

  lemma RewindRuns(s: State, k: nat)
    requires s.pc == AfterFire && s.kind == AutoRewind && k >= 4
    ensures Run(s, Steps(k))
         == Run(s.(pc := CheckStop, spent := ZERO, stop := false, armed := 0, disarmed := false), Steps(k - 4))
  {
    hide Run, Steps, Advance;
    RewindSteps(s);
    StepFirst(s, k);
    StepFirst(s.(pc := RewindNsec, spent := s.spent.(sec := 0)), k - 1);
    StepFirst(s.(pc := RewindStop, spent := ZERO), k - 2);
    StepFirst(s.(pc := LoopTest, spent := ZERO, stop := false, armed := 0, disarmed := false), k - 3);
  }

  lemma ZeroWaits(wait: Timespec)
    requires wait.Normalized() && wait.Total() > 0
    ensures !Exits(wait, ZERO)
  {}

  /** timer_rewind and the test of the outer loop. */
  lemma RewindSteps(s: State)
    requires s.pc == AfterFire && s.kind == AutoRewind
    ensures var s1, s2 := s.(pc := RewindNsec, spent := s.spent.(sec := 0)), s.(pc := RewindStop, spent := ZERO);
      var u := s.(spent := ZERO, stop := false, armed := 0, disarmed := false);
      && Advance(s) == s1 && Advance(s1) == s2 && Advance(s2) == u.(pc := LoopTest)
      && Advance(u.(pc := LoopTest)) == u.(pc := CheckStop)
  {}

  lemma {:induction false} LeavingRewinds(s: State, k: nat)
    requires s.kind == AutoRewind && Leaving(s) && Distance(s.pc) + 10 <= k
    requires s.wait.Normalized() && s.wait.Total() > 0
    ensures Run(s, Steps(k)) == Rewound(s)
    decreases k
  {
    hide Run, Steps;
    StepFirst(s, k);
    var u := Advance(s);
    if s.pc == BeforeFire {
      RewindHalts(u, k - 1);
    } else {
      LeavingRewinds(u, k - 1);
    }
  }

  // ---------------------------------------------------------------- period after period

  /** A waiter at its hlt, `a` ticks into its period. */
  ghost predicate Resting(s: State, a: nat) {
    && s.pc == Halted && s.kind == AutoRewind && !s.stop && !s.disarmed
    && s.wait.Normalized() && s.wait.Total() > 0
    && s.armed == a && s.spent == TickedTimes(a)
  }

  /** One tick: the waiter goes back to its hlt, or its handler runs and the next period begins. */
  lemma BeatRests(s: State, a: nat)
    requires Resting(s, a) && a + 1 < 100 * UINT64
    ensures var r := Run(Next(s, ClockTick), Steps(18));
      if (a + 1) * TICK_NSEC >= s.wait.Total() then
        Resting(r, 0) && r.wait == s.wait && r.firings == s.firings + [Firing(TickedTimes(a + 1), a + 1, false)]
      else
        Resting(r, a + 1) && r.wait == s.wait && r.firings == s.firings
  {
    hide Run, Steps, TickedTimes;
    NextTick(a);
    ClockExactIff(a + 1);
    TicksClosedForm(0);
    var u := s.(pc := CheckStop, spent := TickedTimes(a + 1), armed := a + 1);
    assert Next(s, ClockTick) == u;
    ExitsWhenDue(u.wait, u.spent);
    if (a + 1) * TICK_NSEC >= s.wait.Total() {
      LeavingRewinds(u, 18);
    } else {
      WaitingHalts(u, 18);
    }
  }

  /** The handler runs at the n-th tick of a period of which `a` are over, and the next one begins. */
  lemma {:induction false} PeriodEnds(s: State, a: nat, n: nat)
    requires Resting(s, a) && a < n < 100 * UINT64
    requires (n - 1) * TICK_NSEC < s.wait.Total() <= n * TICK_NSEC
    ensures var r := Run(s, Beats(n - a));
      Resting(r, 0) && r.wait == s.wait && r.firings == s.firings + [Firing(TickedTimes(n), n, false)]
    decreases n - a
  {
    hide Run, Steps, Next, TickedTimes;
    OneBeat(s, n - a);
    BeatRests(s, a);
    var r := Run(Next(s, ClockTick), Steps(18));
    if a + 1 < n {
      PeriodEnds(r, a + 1, n);
    } else {
      NoBeats(r);
    }
  }

  lemma NoBeats(s: State)
    ensures Run(s, Beats(0)) == s
  {}

  function Copies(f: Firing, m: nat): seq<Firing> {
    if m == 0 then [] else Copies(f, m - 1) + [f]
  }

  lemma {:induction false} PeriodsFire(s: State, m: nat, n: nat)
    requires Resting(s, 0) && 0 < n < 100 * UINT64
    requires (n - 1) * TICK_NSEC < s.wait.Total() <= n * TICK_NSEC
    ensures var r := Run(s, Beats(m * n));
      Resting(r, 0) && r.wait == s.wait && r.firings == s.firings + Copies(Firing(TickedTimes(n), n, false), m)
  {
    hide Run, Resting, TickedTimes, Beats;
    if m == 0 {
      NoBeats(s);
      assert 0 * n == 0;
    } else {
      var f := Firing(TickedTimes(n), n, false);
      PeriodsFire(s, m - 1, n);
      var t := Run(s, Beats((m - 1) * n));
      RestingWaits(s);
      assert m * n == (m - 1) * n + n && (m - 1) * n >= 0;
      BeatsAppend((m - 1) * n, n);
      RunAppend(s, Beats((m - 1) * n), Beats(n));
      PeriodEnds(t, 0, n);
      assert s.firings + Copies(f, m - 1) + [f] == s.firings + Copies(f, m);
    }
  }

  lemma RestingWaits(s: State)
    requires Resting(s, 0)
    ensures s.wait.Total() > 0
  {}

  /** From timer_start: `m` periods of as many ticks as make the wait complete give exactly `m` runs of
      the handler, each after a whole period, and leave the waiter at its hlt with nothing spent. */
  lemma FiresEveryPeriod(wait: Timespec, m: nat)
    requires wait.Normalized() && 0 < wait.Total() <= (100 * UINT64 - 1) * TICK_NSEC
    ensures var n := (wait.Total() + TICK_NSEC - 1) / TICK_NSEC;
      var r := Run(Started(AutoRewind, wait), Steps(18) + Beats(m * n));
      && r.firings == Copies(Firing(TickedTimes(n), n, false), m)
      && r.pc == Halted && r.spent == ZERO && !r.stop
  {
    hide Run, Steps, TickedTimes, Beats, Copies;
    var s, n := Started(AutoRewind, wait), (wait.Total() + TICK_NSEC - 1) / TICK_NSEC;
    TicksClosedForm(0);
    RunAppend(s, Steps(18), Beats(m * n));
    WaitingHalts(s, 18);
    PeriodsFire(s.(pc := Halted), m, n);
  }

  // ---------------------------------------------------------------- after every history

  /** The waiter has left the loop, or is about to. */
  predicate Over(s: State) {
    s.pc == Returned || (s.pc == LoopTest && s.stop)
  }

  /** Behind its handler, how many steps the waiter takes to check again. */
  function Behind(pc: Pc): nat {
    match pc
    case AfterFire => 4
    case RewindNsec => 3
    case RewindStop => 2
    case LoopTest => 1
    case _ => 0
  }

  lemma {:induction false} GoesBack(s: State, k: nat)
    requires s.kind == AutoRewind && Behind(s.pc) > 0 && !Over(s) && k >= Behind(s.pc) + 8
    ensures var r := Run(s, Steps(k));
      && r.kind == s.kind && r.wait == s.wait && |r.firings| >= |s.firings|
      && (r.pc == Halted || |r.firings| > |s.firings|)
    decreases k
  {
    hide Run, Steps, Fired;
    StepFirst(s, k);
    var u := Advance(s);
    FiredKeepsKind(u, Steps(k - 1));
    if s.pc == LoopTest {
      FiresOrHalts(u, k - 1);
      FiredMore(u, Run(u, Steps(k - 1)));
    } else {
      GoesBack(u, k - 1);
    }
  }

  lemma FiredMore(s: State, r: State)
    ensures Fired(s, r) ==> |r.firings| > |s.firings|
  {}

  lemma {:induction false} FiredKeepsKind(s: State, es: seq<Event>)
    ensures var r := Run(s, es); r.kind == s.kind && r.wait == s.wait && |r.firings| >= |s.firings|
    decreases |es|
  {
    if es != [] {
      FiredKeepsKind(Next(s, es[0]), es[1..]);
    }
  }

  /** From anywhere in the loop eighteen steps bring the waiter to its hlt, or to its handler. */
  lemma HaltsOrFires(s: State)
    requires s.kind == AutoRewind && !Over(s)
    ensures var r := Run(s, Steps(18)); r.pc == Halted || |r.firings| > |s.firings|
  {
    hide Run, Steps, Fired;
    if Behind(s.pc) > 0 {
      GoesBack(s, 18);
    } else {
      FiresOrHalts(s, 18);
      FiredMore(s, Run(s, Steps(18)));
    }
  }

  /** At its hlt the waiter fires within as many ticks as the whole wait has. */
  lemma {:induction false} HaltedFires(s: State, n: nat)
    requires s.pc == Halted && s.kind == AutoRewind && s.wait.Normalized() && n > 0
    requires s.spent == TickedTimes(s.armed) && s.armed + n < 100 * UINT64
    requires s.stop || (s.armed + n) * TICK_NSEC >= s.wait.Total()
    ensures |Run(s, Beats(n)).firings| > |s.firings|
    decreases n
  {
    hide Run, Steps, Next, TickedTimes, Fired, Beats;
    OneBeat(s, n);
    var u := Next(s, ClockTick);
    TickWakes(s);
    var r := Run(u, Steps(18));
    FiredKeepsKind(r, Beats(n - 1));
    if Leaving(u) {
      LeavingFires(u, 18);
      FiredMore(u, r);
    } else {
      WaitingHalts(u, 18);
      HaltedFires(r, n - 1);
    }
  }

  lemma TickWakes(s: State)
    requires s.pc == Halted && s.wait.Normalized() && s.spent == TickedTimes(s.armed) && s.armed + 1 < 100 * UINT64
    ensures var u := Next(s, ClockTick);
      && u.pc == CheckStop && u.kind == s.kind && u.wait == s.wait && u.firings == s.firings && u.stop == s.stop
      && (s.stop || (s.armed + 1) * TICK_NSEC >= s.wait.Total() ==> Leaving(u))
      && (!s.stop ==> u.armed == s.armed + 1 && u.spent == TickedTimes(u.armed) && (Leaving(u) || Waiting(u)))
  {
    hide TickedTimes;
    NextTick(s.armed);
    ClockExactIff(s.armed + 1);
    TicksClosedForm(s.armed + 1);
    ExitsWhenDue(s.wait, TickedTimes(s.armed + 1));
  }

  /** After every history that has not left the loop, disarms and handlers run included, the handler of
      a timer that rewinds itself runs again within one wait. */
  lemma EveryHistoryFiresAgain(wait: Timespec, es: seq<Event>)
    requires wait.Normalized()
    requires var s := Run(Started(AutoRewind, wait), es); !Over(s)
    requires |es| + 18 + (wait.Total() + TICK_NSEC) / TICK_NSEC < 100 * UINT64
    ensures var s, n := Run(Started(AutoRewind, wait), es), (wait.Total() + TICK_NSEC) / TICK_NSEC;
      |Run(s, Steps(18) + Beats(n)).firings| > |s.firings|
  {
    hide Run, Steps, Beats, Invariant;
    var s0, n := Started(AutoRewind, wait), (wait.Total() + TICK_NSEC) / TICK_NSEC;
    var s := Run(s0, es);
    FiredKeepsKind(s0, es);
    RunAppend(s, Steps(18), Beats(n));
    HaltsOrFires(s);
    var t := Run(s, Steps(18));
    FiredKeepsKind(s, Steps(18));
    FiredKeepsKind(t, Beats(n));
    if |t.firings| <= |s.firings| {
      RunAppend(s0, es, Steps(18));
      StartedSound(wait);
      RunKeeps(s0, es + Steps(18));
      ArmedAtMost(s0, es + Steps(18));
      SpentCounts(t);
      assert wait.Total() <= n * TICK_NSEC;
      HaltedFires(t, n);
    }
  }

  lemma StartedSound(wait: Timespec)
    requires wait.Normalized()
    ensures Invariant(Started(AutoRewind, wait))
  {}

  lemma SpentCounts(s: State)
    requires Invariant(s) && s.pc == Halted
    ensures s.spent == TickedTimes(s.armed)
  {}

  lemma {:induction false} ArmedAtMost(s: State, es: seq<Event>)
    ensures Run(s, es).armed <= s.armed + |es|
    decreases |es|
  {
    if es != [] {
      ArmedAtMost(Next(s, es[0]), es[1..]);
    }
  }
}
