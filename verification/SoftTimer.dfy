/** The soft timer as interleaved steps (arch/x86/lib/timer.c.h:42-101 against clock.c:67-89): the
    waiter reads and writes softtimer0 one field at a time, and the clock interrupt, any other
    interrupt, or a call of timer_disarm from a handler may come between any two of its steps. */
module SoftTimer {
  import opened Clock

  /** Where the waiter is. The while condition of timer.c.h:79-84 is four separate reads. */
  datatype Pc =
    | CheckStop
    | CheckSecGreater
    | CheckSecEqual
    | CheckNsec
    | BeforeHalt   // the condition held; hlt is next
    | Halted       // until an interrupt
    | BeforeDisarm // the condition failed
    | BeforeFire
    | AfterFire    // the handler has returned
    | RewindNsec   // timer_rewind, tv_sec already cleared
    | RewindStop
    | LoopTest     // timer.c.h:98
    | Returned

  /** One run of the handler: the time then spent, the ticks counted since the timer was last started
      or rewound, and whether something else had disarmed it since. */
  datatype Firing = Firing(spent: Timespec, armed: nat, disarmed: bool)

  datatype State = State(
    pc: Pc, kind: Kind, wait: Timespec, spent: Timespec, stop: bool,
    armed: nat, disarmed: bool, firings: seq<Firing>)

  datatype Event = Step | ClockTick | OtherInterrupt | Disarm

  /** After timer_wind and the assignments of timer_start, timer.c.h:33-46. */
  function Started(kind: Kind, wait: Timespec): State {
    State(CheckStop, kind, wait, ZERO, false, 0, false, [])
  }

  /** One step of the waiter. */
  function Advance(s: State): State {
    match s.pc
    case CheckStop => s.(pc := if s.stop then BeforeDisarm else CheckSecGreater)
    case CheckSecGreater => s.(pc := if s.wait.sec > s.spent.sec then BeforeHalt else CheckSecEqual)
    case CheckSecEqual => s.(pc := if s.wait.sec == s.spent.sec then CheckNsec else BeforeDisarm)
    case CheckNsec => s.(pc := if s.wait.nsec > s.spent.nsec then BeforeHalt else BeforeDisarm)
    case BeforeHalt => s.(pc := Halted)
    case Halted => s
    case BeforeDisarm => s.(pc := BeforeFire, stop := true)
    case BeforeFire => s.(pc := AfterFire, firings := s.firings + [Firing(s.spent, s.armed, s.disarmed)])
    case AfterFire =>
      if s.kind == AutoRewind then s.(pc := RewindNsec, spent := s.spent.(sec := 0)) else s.(pc := LoopTest)
    case RewindNsec => s.(pc := RewindStop, spent := s.spent.(nsec := 0))
    case RewindStop => s.(pc := LoopTest, stop := false, armed := 0, disarmed := false)
    case LoopTest => s.(pc := if !s.stop && s.kind == AutoRewind then CheckStop else Returned)
    case Returned => s
  }

  function Woken(s: State): State {
    if s.pc == Halted then s.(pc := CheckStop) else s
  }

  function Next(s: State, e: Event): State {
    match e
    case Step => Advance(s)
    case ClockTick => Woken(if s.stop then s else s.(spent := Ticked(s.spent), armed := s.armed + 1))
    case OtherInterrupt => Woken(s)
    case Disarm => s.(stop := true, disarmed := true)
  }

  function Run(s: State, es: seq<Event>): State
    decreases |es|
  {
    if es == [] then s else Run(Next(s, es[0]), es[1..])
  }

  /** The time spent has reached the time to wait. */
  predicate Due(wait: Timespec, spent: Timespec) {
    spent.Total() >= wait.Total()
  }

  // ---------------------------------------------------------------- the condition

  /** The while condition of timer.c.h:80-83 fails, all its reads taken at one time. */
  predicate Exits(wait: Timespec, spent: Timespec) {
    !(wait.sec > spent.sec || (wait.sec == spent.sec && wait.nsec > spent.nsec))
  }

  /** For a normalized wait the loop is left exactly when the time has come. */
  lemma ExitsWhenDue(wait: Timespec, spent: Timespec)
    requires wait.Normalized() && spent.Normalized()
    ensures Exits(wait, spent) <==> Due(wait, spent)
  {}

  /** The waits for which the condition never fails too soon: more nanoseconds than a second do harm
      unless the seconds can only be reached by a clock about to wrap. */
  predicate NeverShort(wait: Timespec) {
    0 <= wait.sec && 0 <= wait.nsec && (wait.nsec <= NSEC_PER_SEC || wait.sec + 1 >= UINT64)
  }

  // ---------------------------------------------------------------- the handler is never early

  predicate Checking(pc: Pc) {
    || pc == CheckStop || pc == CheckSecGreater || pc == CheckSecEqual || pc == CheckNsec
    || pc == BeforeHalt || pc == Halted
  }

  predicate Rewinding(pc: Pc) {
    pc == RewindNsec || pc == RewindStop
  }

  /** A firing is due, or follows an outside disarm; the time it has waited is that of the ticks counted
      since the last start or rewind. */
  ghost predicate GoodFiring(wait: Timespec, f: Firing) {
    f.spent == TickedTimes(f.armed) && (f.disarmed || Due(wait, f.spent))
  }

  ghost predicate Invariant(s: State) {
    && (forall i :: 0 <= i < |s.firings| ==> GoodFiring(s.wait, s.firings[i]))
    && (!Rewinding(s.pc) ==> s.spent == TickedTimes(s.armed))
    && (s.pc == RewindNsec ==> s.spent.sec == 0)
    && (s.pc == RewindStop ==> s.spent == ZERO)
    && (Checking(s.pc) && s.stop ==> s.disarmed)
    && (s.pc == CheckSecEqual || s.pc == CheckNsec ==> s.wait.sec <= s.spent.sec)
    && (s.pc == BeforeDisarm || s.pc == BeforeFire ==> s.disarmed || Due(s.wait, s.spent))
    && (s.pc == BeforeFire || s.pc == AfterFire || Rewinding(s.pc) || s.pc == Returned ==> s.stop)
    && (s.kind == OneShot ==> !Rewinding(s.pc) && (s.pc == LoopTest ==> s.stop))
  }

  /** How often the handler has run, as far as the place of the waiter tells. */
  ghost predicate FiredRight(s: State) {
    && (s.kind == OneShot ==> !Rewinding(s.pc))
    && (s.kind == OneShot ==> |s.firings| == if s.pc == AfterFire || s.pc == LoopTest || s.pc == Returned then 1 else 0)
    && (s.kind == AutoRewind && ((s.pc == LoopTest && s.stop) || s.pc == Returned) ==> s.disarmed)
  }

  lemma TickForward(k: nat)
    requires k + 1 < 100 * UINT64
    ensures TickedTimes(k + 1) == Ticked(TickedTimes(k))
    ensures TickedTimes(k).sec <= TickedTimes(k + 1).sec
    ensures TickedTimes(k + 1).Total() == TickedTimes(k).Total() + TICK_NSEC
  {
    hide TickedTimes;
    NextTick(k);
    ClockExactIff(k);
    ClockExactIff(k + 1);
  }

  lemma TickKeeps(s: State)
    requires NeverShort(s.wait) && s.armed + 1 < 100 * UINT64
    requires Invariant(s)
    ensures Invariant(Next(s, ClockTick))
  {
    hide TickedTimes, Ticked;
    TickForward(s.armed);
  }

  lemma CheckKeeps(s: State)
    requires NeverShort(s.wait) && s.armed < 100 * UINT64
    requires Invariant(s) && Checking(s.pc)
    ensures Invariant(Advance(s))
  {
    hide TickedTimes;
    TicksClosedForm(s.armed);
  }

  lemma FireKeeps(s: State)
    requires Invariant(s) && !Checking(s.pc)
    ensures Invariant(Advance(s))
  {
    hide TickedTimes, Due;
    TicksClosedForm(0);
    if s.pc == BeforeFire {
      assert GoodFiring(s.wait, Firing(s.spent, s.armed, s.disarmed));
    }
  }

  lemma AdvanceKeeps(s: State)
    requires NeverShort(s.wait) && s.armed < 100 * UINT64
    requires Invariant(s)
    ensures Invariant(Advance(s))
  {
    if Checking(s.pc) {
      CheckKeeps(s);
    } else {
      FireKeeps(s);
    }
  }

  lemma NextKeeps(s: State, e: Event)
    requires NeverShort(s.wait) && s.armed + 1 < 100 * UINT64
    requires Invariant(s)
    ensures Invariant(Next(s, e))
    ensures Next(s, e).wait == s.wait && Next(s, e).kind == s.kind && Next(s, e).armed <= s.armed + 1
  {
    match e
    case Step => AdvanceKeeps(s);
    case ClockTick => TickKeeps(s);
    case OtherInterrupt =>
    case Disarm =>
  }

  lemma {:induction false} RunKeeps(s: State, es: seq<Event>)
    requires NeverShort(s.wait) && s.armed + |es| < 100 * UINT64
    requires Invariant(s)
    ensures var r := Run(s, es); Invariant(r) && r.wait == s.wait && r.kind == s.kind
    decreases |es|
  {
    if es != [] {
      NextKeeps(s, es[0]);
      RunKeeps(Next(s, es[0]), es[1..]);
    }
  }

  /** Over every interleaving of less than 2^64 seconds: the handler never runs before the time is up,
      counted from the last start or rewind, unless something else has disarmed the timer since. */
  lemma NeverEarly(kind: Kind, wait: Timespec, es: seq<Event>, i: nat)
    requires NeverShort(wait) && |es| < 100 * UINT64
    requires i < |Run(Started(kind, wait), es).firings|
    ensures var f := Run(Started(kind, wait), es).firings[i];
      && f.spent == TickedTimes(f.armed)
      && (f.disarmed || f.spent.Total() >= wait.Total())
  {
    RunKeeps(Started(kind, wait), es);
  }

  /** While the handler runs, and the timer is rewound, ticks are not counted. */
  lemma HandlerUncounted(kind: Kind, wait: Timespec, es: seq<Event>)
    requires NeverShort(wait) && |es| < 100 * UINT64
    requires var s := Run(Started(kind, wait), es); s.pc == BeforeFire || s.pc == AfterFire || Rewinding(s.pc)
    ensures var s := Run(Started(kind, wait), es); Next(s, ClockTick) == s
  {
    RunKeeps(Started(kind, wait), es);
  }

  lemma {:induction false} FiredKeeps(s: State, es: seq<Event>)
    requires FiredRight(s)
    ensures FiredRight(Run(s, es)) && Run(s, es).kind == s.kind && Run(s, es).wait == s.wait
    decreases |es|
  {
    hide FiredRight, Next;
    if es != [] {
      FiredNext(s, es[0]);
      FiredKeeps(Next(s, es[0]), es[1..]);
    }
  }

  lemma FiredNext(s: State, e: Event)
    requires FiredRight(s)
    ensures FiredRight(Next(s, e)) && Next(s, e).kind == s.kind && Next(s, e).wait == s.wait
  {
    hide Ticked;
  }

  /** A one-shot timer has fired exactly once when timer_start returns, and not twice before; an
      auto-rewind timer does not return unless it is disarmed. */
  lemma FiresOnce(kind: Kind, wait: Timespec, es: seq<Event>)
    ensures var s := Run(Started(kind, wait), es);
      && (kind == OneShot ==> |s.firings| <= 1)
      && (kind == OneShot && s.pc == Returned ==> |s.firings| == 1)
      && (kind == AutoRewind && s.pc == Returned ==> s.disarmed)
  {
    FiredKeeps(Started(kind, wait), es);
  }

  // ---------------------------------------------------------------- runs

  lemma {:induction false} RunAppend(s: State, es: seq<Event>, more: seq<Event>)
    ensures Run(s, es + more) == Run(Run(s, es), more)
    decreases |es|
  {
    if es == [] {
      assert es + more == more;
    } else {
      assert (es + more)[1..] == es[1..] + more;
      RunAppend(Next(s, es[0]), es[1..], more);
    }
  }

  function Steps(k: nat): (es: seq<Event>)
    ensures Disarm !in es && |es| == k
  {
    if k == 0 then [] else [Step] + Steps(k - 1)
  }

  function Ticks(k: nat): (es: seq<Event>)
    ensures Disarm !in es && |es| == k
  {
    if k == 0 then [] else [ClockTick] + Ticks(k - 1)
  }

  lemma StepFirst(s: State, k: nat)
    requires k > 0
    ensures Run(s, Steps(k)) == Run(Advance(s), Steps(k - 1))
  {
    assert Steps(k)[1..] == Steps(k - 1);
  }

  /** Ticks before the first check only count. */
  lemma {:induction false} TicksCount(s: State, k: nat)
    requires s.pc == CheckStop && !s.stop && s.spent == TickedTimes(s.armed)
    ensures Run(s, Ticks(k)) == s.(spent := TickedTimes(s.armed + k), armed := s.armed + k)
    decreases k
  {
    if k > 0 {
      NextTick(s.armed);
      assert Ticks(k)[1..] == Ticks(k - 1);
      TicksCount(Next(s, ClockTick), k - 1);
    }
  }

  // ---------------------------------------------------------------- exactly which waits are cut short

  /** Without an outside disarm nothing is noted as one. */
  lemma {:induction false} Undisturbed(s: State, es: seq<Event>)
    requires Disarm !in es && !s.disarmed && forall f :: f in s.firings ==> !f.disarmed
    ensures forall f :: f in Run(s, es).firings ==> !f.disarmed
    decreases |es|
  {
    if es != [] {
      assert es[0] in es;
      Undisturbed(Next(s, es[0]), es[1..]);
    }
  }

  /** Some run left alone fires too soon. */
  ghost predicate CutShort(kind: Kind, wait: Timespec, es: seq<Event>) {
    && |es| < 100 * UINT64 && Disarm !in es
    && exists f :: f in Run(Started(kind, wait), es).firings && !Due(wait, f.spent)
  }

  /** Over all runs without an outside disarm: no wait is ever cut short if and only if its nanoseconds
      are at most a second, or its seconds are the last before the wrap. */
  lemma NeverShortIff(kind: Kind, wait: Timespec)
    requires wait.sec >= 0 && wait.nsec >= 0
    ensures NeverShort(wait) <==> forall es :: !CutShort(kind, wait, es)
  {
    if NeverShort(wait) {
      forall es | |es| < 100 * UINT64 && Disarm !in es
        ensures !CutShort(kind, wait, es)
      {
        RunKeeps(Started(kind, wait), es);
        Undisturbed(Started(kind, wait), es);
      }
    } else {
      ShortWitness(kind, wait);
    }
  }

  /** With all ticks before the first check, the seconds are passed before the nanoseconds. */
  lemma ShortWitness(kind: Kind, wait: Timespec)
    requires wait.sec >= 0 && !NeverShort(wait) && wait.nsec >= 0
    ensures CutShort(kind, wait, Ticks(100 * (wait.sec + 1)) + Steps(8))
  {
    hide TickedTimes, Ticks, Steps, Advance;
    var k := 100 * (wait.sec + 1);
    var s := Started(kind, wait);
    TicksClosedForm(0);
    TicksCount(s, k);
    RunAppend(s, Ticks(k), Steps(8));
    TicksClosedForm(k);
    var late := Timespec(wait.sec + 1, 0);
    assert TickedTimes(k) == late;
    var t := s.(spent := late, armed := k);
    LeavingFires(t, 8);
    var f := Firing(late, k, false);
    assert Run(t, Steps(8)).firings[0] == f && !Due(wait, f.spent);
  }

  // ---------------------------------------------------------------- how late the handler is

  /** The ticks counted outside a halt since the last check that began before the time had come, and
      whether one of them fell between the comparisons of a check for seconds and for nanoseconds. */
  datatype Missed = Missed(ticks: nat, torn: bool) {
    /** So many ticks after its time the handler may run. */
    function Bound(): nat {
      ticks + if torn then 2 else 1
    }
  }

  const NONE_MISSED: Missed := Missed(0, false)

  function MissedNext(s: State, x: Missed, e: Event): Missed {
    var n := Next(s, e);
    if e == ClockTick && !s.stop && s.pc != Halted then Missed(x.ticks + 1, x.torn || s.pc == CheckNsec)
    else if n.pc == CheckStop && s.pc != CheckStop && !Due(n.wait, n.spent) then NONE_MISSED
    else x
  }

  function MissedBy(s: State, x: Missed, es: seq<Event>): Missed
    decreases |es|
  {
    if es == [] then x else MissedBy(Next(s, es[0]), MissedNext(s, x, es[0]), es[1..])
  }

  /** The time spent is less than `n` ticks behind the time to wait. */
  predicate Within(s: State, n: int) {
    s.spent.Total() < s.wait.Total() + n * TICK_NSEC
  }

  /** A torn check has let the seconds pass. */
  predicate Past(s: State, x: Missed) {
    x.torn && s.spent.sec > s.wait.sec
  }

  ghost predicate LateInvariant(s: State, x: Missed) {
    match s.pc
    case CheckStop => Within(s, x.ticks + 1) || (Past(s, x) && Within(s, x.ticks + 2))
    case CheckSecGreater => Within(s, x.ticks + 1) || (Past(s, x) && Within(s, x.ticks + 2))
    case CheckSecEqual => Within(s, x.ticks + 1) || (Past(s, x) && Within(s, x.ticks + 2))
    case CheckNsec => Within(s, x.ticks + 1) && (!x.torn ==> s.spent.sec == s.wait.sec)
    case BeforeHalt => Within(s, x.ticks) || (Past(s, x) && Within(s, x.ticks + 1))
    case Halted => Within(s, x.ticks) || (Past(s, x) && Within(s, x.ticks + 1))
    case BeforeDisarm => Within(s, x.Bound())
    case BeforeFire => Within(s, x.Bound())
    case LoopTest => s.kind == AutoRewind ==> s.spent.Total() <= x.ticks * TICK_NSEC
    case _ => true
  }

  lemma LateTick(s: State, x: Missed)
    requires NeverShort(s.wait) && s.armed + 1 < 100 * UINT64
    requires Invariant(s) && LateInvariant(s, x)
    ensures LateInvariant(Next(s, ClockTick), MissedNext(s, x, ClockTick))
  {
    hide TickedTimes, Ticked;
    TickForward(s.armed);
  }

  lemma LateCheck(s: State, x: Missed)
    requires NeverShort(s.wait) && s.armed < 100 * UINT64
    requires Invariant(s) && Checking(s.pc) && LateInvariant(s, x)
    ensures LateInvariant(Advance(s), MissedNext(s, x, Step))
  {
    hide TickedTimes, Ticked;
    TicksClosedForm(s.armed);
  }

  lemma LateStep(s: State, x: Missed)
    requires NeverShort(s.wait)
    requires Invariant(s) && !Checking(s.pc) && LateInvariant(s, x)
    ensures LateInvariant(Advance(s), MissedNext(s, x, Step))
  {
    hide TickedTimes, Ticked;
  }

  lemma LateNext(s: State, x: Missed, e: Event)
    requires NeverShort(s.wait) && s.armed + 1 < 100 * UINT64
    requires Invariant(s) && LateInvariant(s, x)
    ensures LateInvariant(Next(s, e), MissedNext(s, x, e))
  {
    match e
    case Step => if Checking(s.pc) { LateCheck(s, x); } else { LateStep(s, x); }
    case ClockTick => LateTick(s, x);
    case OtherInterrupt =>
    case Disarm =>
  }

  lemma {:induction false} LateRun(s: State, x: Missed, es: seq<Event>)
    requires NeverShort(s.wait) && s.armed + |es| < 100 * UINT64
    requires Invariant(s) && LateInvariant(s, x)
    ensures LateInvariant(Run(s, es), MissedBy(s, x, es))
    decreases |es|
  {
    hide Invariant, LateInvariant, Next, MissedNext;
    if es != [] {
      NextKeeps(s, es[0]);
      LateNext(s, x, es[0]);
      LateRun(Next(s, es[0]), MissedNext(s, x, es[0]), es[1..]);
    }
  }

  /** A check that begins after the time has come may go on waiting, if a tick ends the second between
      its comparisons. */
  lemma TornCheckWaits(s: State)
    requires s.pc == CheckSecEqual && !s.stop && s.wait.sec == s.spent.sec
    requires 0 < s.wait.nsec <= s.spent.nsec == NSEC_PER_SEC - TICK_NSEC
    ensures Due(s.wait, s.spent) && Run(s, [Step, ClockTick, Step]).pc == BeforeHalt
  {
    var s1 := Advance(s);
    assert Run(s1, [ClockTick, Step]) == Run(Next(s1, ClockTick), [Step]);
  }

  /** Event `j` of the run is the call of the handler that makes firing `i`. */
  ghost predicate MakesFiring(s: State, es: seq<Event>, i: nat, j: nat)
    requires j < |es|
  {
    var t := Run(s, es[..j]);
    && t.pc == BeforeFire && i < |Run(s, es).firings|
    && Run(s, es).firings[i] == Firing(t.spent, t.armed, t.disarmed)
  }

  lemma {:induction false} FiringIsMade(s: State, es: seq<Event>, i: nat) returns (j: nat)
    requires |s.firings| <= i < |Run(s, es).firings|
    ensures j < |es| && MakesFiring(s, es, i, j)
    decreases |es|
  {
    hide Run, Advance;
    FiringsSoFar(s, es);
    assert es != [];
    var n, rest := Next(s, es[0]), es[1..];
    if |n.firings| <= i {
      j := FiringIsMade(n, rest, i);
      j := j + 1;
      PrefixFirst(s, es, j);
    } else {
      j := 0;
      FiresOnStep(s, es[0]);
      FiringsSoFar(n, rest);
      NothingRun(s, es);
    }
  }

  lemma FiresOnStep(s: State, e: Event)
    requires |Next(s, e).firings| > |s.firings|
    ensures s.pc == BeforeFire && Next(s, e).firings == s.firings + [Firing(s.spent, s.armed, s.disarmed)]
  {}

  lemma NothingRun(s: State, es: seq<Event>)
    ensures Run(s, es[..0]) == s
    ensures es != [] ==> Run(s, es) == Run(Next(s, es[0]), es[1..])
  {}

  lemma PrefixFirst(s: State, es: seq<Event>, j: nat)
    requires 0 < j <= |es|
    ensures Run(s, es[..j]) == Run(Next(s, es[0]), es[1..][..j - 1])
    ensures Run(s, es) == Run(Next(s, es[0]), es[1..])
  {
    assert es[..j][1..] == es[1..][..j - 1];
  }

  /** The firings made are never taken back. */
  lemma {:induction false} FiringsSoFar(s: State, es: seq<Event>)
    ensures var r := Run(s, es);
      && |s.firings| <= |r.firings| && (es == [] ==> r == s)
      && (forall i :: 0 <= i < |s.firings| ==> r.firings[i] == s.firings[i])
      && (es != [] ==> r == Run(Next(s, es[0]), es[1..]))
    decreases |es|
  {
    if es != [] {
      FiringsSoFar(Next(s, es[0]), es[1..]);
    }
  }

  /** Over every interleaving, disarms included: each handler runs less than a tick behind its time for
      each tick that fell outside a halt since the last check that began before it, and one, and one
      more if a check was torn. */
  lemma LateBy(kind: Kind, wait: Timespec, es: seq<Event>, i: nat) returns (j: nat)
    requires NeverShort(wait) && |es| < 100 * UINT64
    requires i < |Run(Started(kind, wait), es).firings|
    ensures j < |es| && MakesFiring(Started(kind, wait), es, i, j)
    ensures var x := MissedBy(Started(kind, wait), NONE_MISSED, es[..j]);
      Run(Started(kind, wait), es).firings[i].spent.Total() < wait.Total() + x.Bound() * TICK_NSEC
  {
    hide Run, MissedBy;
    var s := Started(kind, wait);
    j := FiringIsMade(s, es, i);
    RunKeeps(s, es[..j]);
    LateRun(s, NONE_MISSED, es[..j]);
  }

  // ---------------------------------------------------------------- the handler is not late

  /** Ticks fall only where they do no harm: at most one between a check that goes on waiting and its
      hlt, and otherwise only while the waiter is halted; nothing else disarms the timer. `missed`
      tells that the one tick has been used up. */
  ghost predicate PromptStep(s: State, missed: bool, e: Event) {
    match e
    case Step => true
    case OtherInterrupt => true
    case Disarm => false
    case ClockTick => s.stop || s.pc == Halted || (s.pc == BeforeHalt && !missed)
  }

  function MissedAfter(s: State, missed: bool, e: Event): bool {
    if e == ClockTick && s.pc == BeforeHalt then true
    else if Checking(Next(s, e).pc) && Next(s, e).pc != BeforeHalt && Next(s, e).pc != Halted then false
    else missed
  }

  ghost predicate Prompt(s: State, missed: bool, es: seq<Event>)
    decreases |es|
  {
    es != [] ==> PromptStep(s, missed, es[0]) && Prompt(Next(s, es[0]), MissedAfter(s, missed, es[0]), es[1..])
  }

  /** On a prompt schedule at most one tick is missed, and a check after that ends the wait. */
  ghost predicate PromptInvariant(s: State, missed: bool, x: Missed) {
    && x.ticks <= 1 && !x.torn
    && (s.pc == BeforeHalt || s.pc == Halted ==> x.ticks == 0 || missed)
    && (Checking(s.pc) && s.pc != BeforeHalt && s.pc != Halted ==> x.ticks == 0 || Exits(s.wait, s.spent))
    && (s.pc == CheckNsec ==> s.wait.sec == s.spent.sec)
  }

  lemma PromptNext(s: State, missed: bool, x: Missed, e: Event)
    requires s.wait.Normalized() && s.armed + 1 < 100 * UINT64
    requires Invariant(s) && PromptInvariant(s, missed, x) && PromptStep(s, missed, e)
    ensures PromptInvariant(Next(s, e), MissedAfter(s, missed, e), MissedNext(s, x, e))
  {
    match e
    case Step => PromptAdvance(s, missed, x);
    case ClockTick => PromptTick(s, missed, x);
    case OtherInterrupt => PromptWoken(s, missed, x);
  }

  lemma PromptAdvance(s: State, missed: bool, x: Missed)
    requires s.wait.Normalized() && s.armed + 1 < 100 * UINT64
    requires Invariant(s) && PromptInvariant(s, missed, x)
    ensures PromptInvariant(Next(s, Step), MissedAfter(s, missed, Step), MissedNext(s, x, Step))
  {
    hide TickedTimes, Ticked, Invariant;
    NextKeeps(s, Step);
    SpentNormal(s);
    SpentNormal(Next(s, Step));
  }

  lemma PromptTick(s: State, missed: bool, x: Missed)
    requires s.wait.Normalized() && s.armed + 1 < 100 * UINT64
    requires Invariant(s) && PromptInvariant(s, missed, x) && PromptStep(s, missed, ClockTick)
    ensures PromptInvariant(Next(s, ClockTick), MissedAfter(s, missed, ClockTick), MissedNext(s, x, ClockTick))
  {
    hide TickedTimes, Ticked, Invariant;
    NextKeeps(s, ClockTick);
    SpentNormal(s);
    SpentNormal(Next(s, ClockTick));
  }

  lemma PromptWoken(s: State, missed: bool, x: Missed)
    requires s.wait.Normalized() && s.armed < 100 * UINT64
    requires Invariant(s) && PromptInvariant(s, missed, x)
    ensures PromptInvariant(Woken(s), MissedAfter(s, missed, OtherInterrupt), MissedNext(s, x, OtherInterrupt))
  {
    hide TickedTimes, Ticked, Invariant;
    SpentNormal(s);
  }

  lemma SpentNormal(s: State)
    requires Invariant(s) && s.armed < 100 * UINT64
    ensures !Rewinding(s.pc) ==> s.spent.Normalized()
    ensures s.pc == CheckSecEqual || s.pc == CheckNsec ==> s.wait.sec <= s.spent.sec
  {
    hide TickedTimes;
    TicksClosedForm(s.armed);
  }

  lemma {:induction false} PromptRun(s: State, missed: bool, x: Missed, es: seq<Event>, j: nat)
    requires s.wait.Normalized() && s.armed + |es| < 100 * UINT64 && j <= |es|
    requires Invariant(s) && PromptInvariant(s, missed, x) && Prompt(s, missed, es)
    ensures var y := MissedBy(s, x, es[..j]); y.ticks <= 1 && !y.torn
    decreases |es|
  {
    hide Invariant, PromptStep, Next, MissedNext, MissedAfter;
    if j > 0 {
      NextKeeps(s, es[0]);
      PromptNext(s, missed, x, es[0]);
      PromptRun(Next(s, es[0]), MissedAfter(s, missed, es[0]), MissedNext(s, x, es[0]), es[1..], j - 1);
      assert es[..j][1..] == es[1..][..j - 1];
    }
  }

  /** On a prompt schedule every handler runs less than two ticks after its time. */
  lemma NotLate(kind: Kind, wait: Timespec, es: seq<Event>, i: nat)
    requires wait.Normalized() && |es| < 100 * UINT64
    requires Prompt(Started(kind, wait), false, es)
    requires i < |Run(Started(kind, wait), es).firings|
    ensures Run(Started(kind, wait), es).firings[i].spent.Total() < wait.Total() + 2 * TICK_NSEC
  {
    hide Run, Prompt, MissedBy;
    var j := LateBy(kind, wait, es, i);
    PromptRun(Started(kind, wait), false, NONE_MISSED, es, j);
  }

  // ---------------------------------------------------------------- the handler does run

  /** How many steps the waiter of a one-shot timer can take before it halts or returns. */
  function Distance(pc: Pc): nat {
    match pc
    case CheckStop => 8
    case CheckSecGreater => 7
    case CheckSecEqual => 6
    case CheckNsec => 5
    case BeforeDisarm => 4
    case BeforeFire => 3
    case AfterFire => 2
    case LoopTest => 1
    case BeforeHalt => 1
    case _ => 0
  }

  /** The handler has run since `s`, first with the time spent then. */
  ghost predicate Fired(s: State, r: State) {
    && |s.firings| < |r.firings| && r.firings[..|s.firings|] == s.firings
    && r.firings[|s.firings|] == Firing(s.spent, s.armed, s.disarmed)
  }

  lemma {:induction false} FiredStays(s: State, r: State, es: seq<Event>)
    requires Fired(s, r)
    ensures Fired(s, Run(r, es))
    decreases |es|
  {
    if es != [] {
      FiredStays(s, Next(r, es[0]), es[1..]);
    }
  }

  predicate ToFire(pc: Pc) {
    pc == BeforeDisarm || pc == BeforeFire
  }

  /** Until then the waiter has changed nothing that a firing tells. */
  lemma FiredSame(s: State, u: State, r: State)
    requires u.firings == s.firings && u.spent == s.spent && u.armed == s.armed && u.disarmed == s.disarmed
    requires Fired(u, r)
    ensures Fired(s, r)
  {}

  lemma HandlerRuns(s: State, es: seq<Event>)
    requires s.pc == BeforeFire
    ensures Fired(s, Run(Advance(s), es))
  {
    FiredStays(s, Advance(s), es);
  }

  /** A waiter that checks goes to its handler or to its hlt. */
  lemma {:induction false} FiresOrHalts(s: State, k: nat)
    requires (Checking(s.pc) || ToFire(s.pc)) && Distance(s.pc) <= k
    ensures var r := Run(s, Steps(k)); (Checking(s.pc) && r == s.(pc := Halted)) || Fired(s, r)
    decreases k
  {
    hide Fired, Run, Steps;
    if s.pc == Halted {
      HaltStays(s, k);
    } else {
      StepFirst(s, k);
      if s.pc == BeforeFire {
        HandlerRuns(s, Steps(k - 1));
      } else {
        var u, r := Advance(s), Run(s, Steps(k));
        FiresOrHalts(u, k - 1);
        if Fired(u, r) {
          FiredSame(s, u, r);
        }
      }
    }
  }

  lemma {:induction false} HaltStays(s: State, k: nat)
    requires s.pc == Halted || s.pc == Returned
    ensures Run(s, Steps(k)) == s
    decreases k
  {
    if k > 0 {
      StepFirst(s, k);
      HaltStays(s, k - 1);
    }
  }

  /** The checks to come will be failed. */
  predicate Leaving(s: State) {
    || (s.pc == CheckStop && (s.stop || Exits(s.wait, s.spent)))
    || ((s.pc == CheckSecGreater || s.pc == CheckSecEqual) && Exits(s.wait, s.spent))
    || (s.pc == CheckNsec && s.wait.nsec <= s.spent.nsec)
    || s.pc == BeforeDisarm || (s.pc == BeforeFire && s.stop)
  }

  lemma {:induction false} LeavingFires(s: State, k: nat)
    requires Leaving(s) && Distance(s.pc) <= k
    ensures Fired(s, Run(s, Steps(k)))
    decreases k
  {
    hide Fired, Run, Steps;
    StepFirst(s, k);
    if s.pc == BeforeFire {
      HandlerRuns(s, Steps(k - 1));
    } else {
      var u := Advance(s);
      LeavingFires(u, k - 1);
      FiredSame(s, u, Run(s, Steps(k)));
    }
  }

  /** Eight steps, an interrupt that ends a halt, and eight steps. */
  function Soon(): seq<Event> {
    Steps(8) + ([OtherInterrupt] + Steps(8))
  }

  lemma InterruptThen(s: State, es: seq<Event>)
    ensures Run(s, [OtherInterrupt] + es) == Run(Woken(s), es)
  {
    assert ([OtherInterrupt] + es)[1..] == es;
  }

  /** A waiter that checks when the timer is stopped, or its time has come, soon runs the handler. */
  lemma FiresSoon(s: State)
    requires ToFire(s.pc) || (Checking(s.pc) && (s.stop || Exits(s.wait, s.spent)))
    ensures Fired(s, Run(s, Soon()))
  {
    hide Steps, Run, Fired;
    var t := Run(s, Steps(8));
    RunAppend(s, Steps(8), [OtherInterrupt] + Steps(8));
    InterruptThen(t, Steps(8));
    FiresOrHalts(s, 8);
    if Fired(s, t) {
      FiredStays(s, t, [OtherInterrupt] + Steps(8));
    } else {
      var u := s.(pc := CheckStop);
      LeavingFires(u, 8);
      FiredSame(s, u, Run(u, Steps(8)));
    }
  }

  // ---------------------------------------------------------------- and returns

  /** A one-shot timer that has fired is stopped. */
  predicate Single(s: State) {
    && s.kind == OneShot && !Rewinding(s.pc)
    && (s.pc == BeforeFire || s.pc == AfterFire || s.pc == LoopTest || s.pc == Returned ==> s.stop)
  }

  lemma {:induction false} Settles(s: State, k: nat)
    requires Single(s) && Distance(s.pc) <= k
    ensures var r := Run(s, Steps(k));
      && Single(r) && (r.pc == Halted || r.pc == Returned)
      && r.wait == s.wait && r.spent == s.spent && (s.stop ==> r.stop)
    decreases k
  {
    hide Run, Steps;
    if s.pc == Halted || s.pc == Returned {
      HaltStays(s, k);
    } else {
      StepFirst(s, k);
      Settles(Advance(s), k - 1);
    }
  }

  predicate Returning(s: State) {
    Leaving(s) || ((s.pc == AfterFire || s.pc == LoopTest || s.pc == Returned) && s.stop)
  }

  lemma {:induction false} ReturningReturns(s: State, k: nat)
    requires s.kind == OneShot && Returning(s) && Distance(s.pc) <= k
    ensures var fired := if Leaving(s) then s.firings + [Firing(s.spent, s.armed, s.disarmed)] else s.firings;
      Run(s, Steps(k)) == s.(pc := Returned, stop := true, firings := fired)
    decreases k
  {
    hide Run, Steps;
    if s.pc == Returned {
      HaltStays(s, k);
    } else {
      StepFirst(s, k);
      ReturningReturns(Advance(s), k - 1);
    }
  }

  lemma ReturnsSoon(s: State)
    requires Single(s) && (s.stop || Exits(s.wait, s.spent))
    ensures Run(s, Soon()).pc == Returned
  {
    hide Steps, Run;
    var t := Run(s, Steps(8));
    RunAppend(s, Steps(8), [OtherInterrupt] + Steps(8));
    InterruptThen(t, Steps(8));
    Settles(s, 8);
    ReturningReturns(Woken(t), 8);
  }

  /** After every history: once the timer is stopped or its time has come, a waiter that is given its
      steps and an interrupt runs the handler, with the time spent so far; and a one-shot timer has then
      returned, with its handler run exactly once. */
  lemma EveryHistoryFires(kind: Kind, wait: Timespec, es: seq<Event>)
    requires NeverShort(wait) && |es| < 100 * UINT64
    requires var s := Run(Started(kind, wait), es); s.stop || Due(wait, s.spent)
    ensures var s := Run(Started(kind, wait), es);
      var r := Run(s, Soon());
      && (Checking(s.pc) ==> Fired(s, r))
      && (kind == OneShot ==> r.pc == Returned && |r.firings| == 1)
  {
    hide Soon;
    var s := Run(Started(kind, wait), es);
    RunKeeps(Started(kind, wait), es);
    FiredKeeps(Started(kind, wait), es);
    FiredKeeps(s, Soon());
    if !Rewinding(s.pc) {
      assert s.stop || Exits(wait, s.spent);
      if Checking(s.pc) {
        FiresSoon(s);
      }
      if kind == OneShot {
        ReturnsSoon(s);
      }
    }
  }

  // ---------------------------------------------------------------- what an outside disarm does

  /** The checks to come will hold. */
  predicate Waiting(s: State) {
    && Checking(s.pc) && !s.stop && !Exits(s.wait, s.spent)
    && (s.pc == CheckSecEqual || s.pc == CheckNsec ==> s.wait.sec <= s.spent.sec)
  }

  lemma {:induction false} WaitingHalts(s: State, k: nat)
    requires Waiting(s) && Distance(s.pc) <= k
    ensures Run(s, Steps(k)) == s.(pc := Halted)
    decreases k
  {
    hide Run, Steps;
    if s.pc == Halted {
      HaltStays(s, k);
    } else {
      StepFirst(s, k);
      WaitingHalts(Advance(s), k - 1);
    }
  }

  /** From every reachable state that checks and is not due: an outside disarm makes the handler run
      with the time spent so far, too soon; without one, and without a tick, it does not run. */
  lemma DisarmFiresEarly(kind: Kind, wait: Timespec, es: seq<Event>)
    requires NeverShort(wait) && |es| < 100 * UINT64
    requires var s := Run(Started(kind, wait), es); Checking(s.pc) && !Due(wait, s.spent)
    ensures var s := Run(Started(kind, wait), es);
      var r := Run(s, [Disarm] + Soon());
      && |r.firings| > |s.firings| && r.firings[|s.firings|] == Firing(s.spent, s.armed, true)
      && (!s.stop ==> Run(s, Soon()).firings == s.firings)
  {
    hide Soon;
    var s := Run(Started(kind, wait), es);
    RunKeeps(Started(kind, wait), es);
    assert ([Disarm] + Soon())[1..] == Soon();
    FiresSoon(Next(s, Disarm));
    if !s.stop {
      assert !Exits(wait, s.spent);
      WaitsOn(s);
    }
  }

  lemma WaitsOn(s: State)
    requires Waiting(s)
    ensures Run(s, Soon()) == s.(pc := Halted)
  {
    hide Steps, Run;
    RunAppend(s, Steps(8), [OtherInterrupt] + Steps(8));
    InterruptThen(s.(pc := Halted), Steps(8));
    WaitingHalts(s, 8);
    WaitingHalts(s.(pc := CheckStop), 8);
  }

  // ---------------------------------------------------------------- the handler is punctual

  /** Time for the waiter to get back to its hlt, and a tick, over and over. */
  function Rounds(n: nat): seq<Event> {
    if n == 0 then [] else Steps(8) + ([ClockTick] + Rounds(n - 1))
  }

  /** With `n` ticks to go, the handler runs at the n-th, neither before nor after. */
  lemma {:induction false} FiresAt(s: State, n: nat)
    requires s.pc == CheckStop && s.kind == OneShot && !s.stop && s.spent == TickedTimes(s.armed)
    requires s.wait.Normalized() && s.armed + n < 100 * UINT64
    requires (s.armed + n) * TICK_NSEC >= s.wait.Total()
    requires n > 0 ==> (s.armed + n - 1) * TICK_NSEC < s.wait.Total()
    ensures var k := s.armed + n;
      Run(s, Rounds(n) + Steps(8))
      == s.(pc := Returned, stop := true, spent := TickedTimes(k), armed := k,
            firings := s.firings + [Firing(TickedTimes(k), k, s.disarmed)])
    decreases n
  {
    hide TickedTimes, Advance, Steps;
    ClockExactIff(s.armed);
    ExitsWhenDue(s.wait, s.spent);
    if n == 0 {
      assert Rounds(0) + Steps(8) == Steps(8);
      ReturningReturns(s, 8);
    } else {
      var rest := Rounds(n - 1) + Steps(8);
      assert Rounds(n) + Steps(8) == Steps(8) + ([ClockTick] + rest);
      RunAppend(s, Steps(8), [ClockTick] + rest);
      WaitingHalts(s, 8);
      assert ([ClockTick] + rest)[1..] == rest;
      var next := s.(spent := TickedTimes(s.armed + 1), armed := s.armed + 1);
      NextTick(s.armed);
      assert Next(s.(pc := Halted), ClockTick) == next;
      FiresAt(next, n - 1);
    }
  }

  /** A one-shot timer that is given its steps runs the handler at the first tick that makes the time
      complete, once, and returns. */
  lemma FiresOnTime(wait: Timespec)
    requires wait.Normalized() && wait.Total() <= (100 * UINT64 - 1) * TICK_NSEC
    ensures var n := (wait.Total() + TICK_NSEC - 1) / TICK_NSEC;
      var s := Run(Started(OneShot, wait), Rounds(n) + Steps(8));
      s.pc == Returned && s.firings == [Firing(TickedTimes(n), n, false)]
  {
    FiresAt(Started(OneShot, wait), (wait.Total() + TICK_NSEC - 1) / TICK_NSEC);
  }
}
