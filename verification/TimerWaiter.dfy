/** The soft timer on the fields of softtimer0, proved to take the steps of module SoftTimer. */
module TimerWaiter {
  import opened Clock
  import opened SoftTimer

  /** isr_timer_int at work on the fields that the clock interrupt counts in. */
  class Waiter {
    const clock: SystemClock
    var pc: Pc
    var handled: nat  // how often the handler has been called

    /** The fields are those of `s`. */
    ghost predicate Shows(s: State)
      reads this, clock
    {
      && pc == s.pc && clock.kind == s.kind && clock.wait == s.wait
      && clock.spent == s.spent && clock.stop == s.stop && handled == |s.firings|
    }

    /** timer_wind, and timer_start up to the first check, timer.c.h:31-52 and 72 */
    constructor (clock: SystemClock, kind: Kind, wait: Timespec)
      requires clock.Valid()
      modifies clock
      ensures this.clock == clock && clock.Valid() && clock.ticks == old(clock.ticks)
      ensures Shows(Started(kind, wait))
    {
      this.clock := clock;
      pc, handled := CheckStop, 0;
      new;
      clock.TimerWind(kind, wait);
      clock.TimerArm();
    }

    /** One read or write of timer.c.h:78-98; the handler itself leaves the timer alone. */
    method TakeStep(ghost s: State)
      requires Shows(s)
      modifies this, clock`spent, clock`stop
      ensures Shows(Advance(s))
    {
      match pc {
        case CheckStop => pc := if clock.stop then BeforeDisarm else CheckSecGreater;
        case CheckSecGreater => pc := if clock.wait.sec > clock.spent.sec then BeforeHalt else CheckSecEqual;
        case CheckSecEqual => pc := if clock.wait.sec == clock.spent.sec then CheckNsec else BeforeDisarm;
        case CheckNsec => pc := if clock.wait.nsec > clock.spent.nsec then BeforeHalt else BeforeDisarm;
        case BeforeHalt => pc := Halted;
        case Halted =>
        case BeforeDisarm =>
          clock.TimerDisarm();
          pc := BeforeFire;
        case BeforeFire =>
          handled := handled + 1;
          pc := AfterFire;
        case AfterFire =>
          if clock.kind == AutoRewind {
            clock.spent := clock.spent.(sec := 0);
            pc := RewindNsec;
          } else {
            pc := LoopTest;
          }
        case RewindNsec =>
          clock.spent := clock.spent.(nsec := 0);
          pc := RewindStop;
        case RewindStop =>
          clock.stop := false;
          pc := LoopTest;
        case LoopTest => pc := if !clock.stop && clock.kind == AutoRewind then CheckStop else Returned;
        case Returned =>
      }
    }

    method Handle(e: Event, ghost s: State)
      requires Shows(s) && clock.Valid()
      modifies this, clock
      ensures Shows(Next(s, e)) && clock.Valid()
      ensures clock.ticks == old(clock.ticks) + if e == ClockTick then 1 else 0
    {
      match e {
        case Step => TakeStep(s);
        case ClockTick =>
          clock.IsrClockInt();
          Wake();
        case OtherInterrupt => Wake();
        case Disarm => clock.TimerDisarm();
      }
    }

    method Wake()
      modifies this`pc
      ensures pc == if old(pc) == Halted then CheckStop else old(pc)
    {
      if pc == Halted {
        pc := CheckStop;
      }
    }

    /** Every interleaving, on the fields: the clock goes on counting, and the timer does what Run says. */
    method Play(es: seq<Event>, ghost s: State)
      requires Shows(s) && clock.Valid()
      modifies this, clock
      ensures Shows(Run(s, es)) && clock.Valid()
      decreases |es|
    {
      if es != [] {
        Handle(es[0], s);
        Play(es[1..], Next(s, es[0]));
      }
    }
  }
}
