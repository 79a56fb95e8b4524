/**
 The tickless-timer driver of src/lib/common/lptimTick_u5.c (precision build): 16-bit registers and
 static variables updated in place by set-up, the idle task's sleep path and the timer interrupt.

 Each method is one stretch of the source that runs with the tick interrupt masked.  Its contract
 says that the 16-bit code takes the step of TickWorld's unbounded state machine, and Valid() keeps
 the compare-register handshake with the hardware.
 */
module LptimTick {
  import opened TickSchedule
  import opened TickWorld

  type u16 = x: int | 0 <= x < 0x1_0000

  function U32(x: int): nat {
    x % 0x1_0000_0000
  }

  // The hardware forbids a compare value equal to the reload value 0xFFFF.
  function CompareFor(ideal: u16): u16 {
    if ideal == 0xFFFF then 0 else ideal
  }

  class LptimTimer {
    const cfg: Config

    // constants computed at set-up
    var maximumSuppressedTicks: int
    var timerCountsForOneTick: int
    var subcountErrorPerTick: int

    // the driver's static variables
    var idealCmp: u16
    var runningSubcountError: int
    var cmpWriteInProgress: bool
    var tickNowSuppressed: bool

    // hardware: the counter (its register shows it modulo 65536), the compare register, a write
    // to it that has not been taken over yet, and the flag that says it has
    var count: nat
    var ccr1: u16
    var ccr1Syncing: bool
    var cmp1Ok: bool

    // the kernel's tick count, with the ticks pended while the scheduler is suspended
    var tickCount: int

    // the unbounded state machine this driver implements
    ghost var world: World

    ghost predicate Valid()
      reads this
    {
      && Constant()
      && Schedules(world.s)
      && tickNowSuppressed == world.phase.Asleep?
      && count == world.count
      && tickCount == world.kernel
      && Handshake()
    }

    ghost predicate Constant()
      reads this
    {
      && cfg.Valid() && cfg.C > 0
      && maximumSuppressedTicks == cfg.MaxSuppressed()
      && timerCountsForOneTick == cfg.CountsPerTick()
      && subcountErrorPerTick == cfg.ErrorPerTick()
    }

    // The 16-bit compare value and the error are those of the schedule.
    ghost predicate Schedules(s: Sched)
      reads this
    {
      idealCmp == Mod16(s.ideal) && runningSubcountError == s.err
    }

    // The driver knows of every unfinished write, never holds 0xFFFF in the compare register, and
    // when no write is pending the register holds the ideal value or the one after it.
    ghost predicate Handshake()
      reads this
    {
      && (cmpWriteInProgress <==> ccr1Syncing || cmp1Ok)
      && !(ccr1Syncing && cmp1Ok)
      && ccr1 != 0xFFFF
      && (!cmpWriteInProgress ==> (ccr1 - idealCmp) % 0x1_0000 <= 1)
    }

    // The compare register holds a value, or the next count where the hardware forbids the value.
    predicate Holds(ideal: u16)
      reads this`ccr1
    {
      ccr1 != 0xFFFF && (ccr1 == ideal || (ideal == 0xFFFF && ccr1 == 0))
    }

    // vPortSetupTimerInterrupt
    constructor (cfg: Config)
      requires cfg.Valid()
      ensures Valid() && this.cfg == cfg
      ensures world == Start(cfg)
      ensures Holds(idealCmp) && ccr1Syncing && cmpWriteInProgress && tickCount == 0
    {
      SomeTicksFit(cfg);
      TwoTicksFit(cfg);
      var n := (cfg.C + cfg.T / 2) / cfg.T;
      this.cfg := cfg;
      timerCountsForOneTick := n;
      maximumSuppressedTicks := 0x1_0000 * cfg.T / cfg.C - 1 - 1;
      subcountErrorPerTick := cfg.C - n * cfg.T;
      ccr1, ccr1Syncing, cmp1Ok := n, true, false;
      cmpWriteInProgress := true;
      idealCmp := n;
      runningSubcountError := cfg.C - n * cfg.T;
      tickNowSuppressed := false;
      count, tickCount := 0, 0;
      world := Start(cfg);
    }

    // ---- the hardware ----

    method AdvanceCount(counts: nat)
      requires Valid()
      modifies this`count, this`world
      ensures Valid() && world == Next(cfg, old(world), Count(counts))
    {
      count := count + counts;
      world := Next(cfg, world, Count(counts));
    }

    // The hardware finishes taking over a compare value.
    method FinishCompareWrite()
      requires Valid() && ccr1Syncing
      modifies this`ccr1Syncing, this`cmp1Ok
      ensures Valid() && !ccr1Syncing && cmp1Ok
    {
      ccr1Syncing, cmp1Ok := false, true;
    }

    // A write of the compare register: prohibited while an earlier one is unfinished.
    method WriteCompare(value: u16)
      requires !ccr1Syncing && value != 0xFFFF
      modifies this`ccr1, this`ccr1Syncing
      ensures ccr1 == value && ccr1Syncing
    {
      ccr1, ccr1Syncing := value, true;
    }

    // Writes the ideal compare value if no write is in progress.
    method WriteIdealIfPossible()
      requires cmpWriteInProgress <==> ccr1Syncing || cmp1Ok
      requires !(ccr1Syncing && cmp1Ok) && ccr1 != 0xFFFF
      modifies this`ccr1, this`ccr1Syncing, this`cmpWriteInProgress
      ensures Handshake() && cmpWriteInProgress
      ensures !old(cmpWriteInProgress) ==> Holds(idealCmp) && ccr1Syncing
      ensures old(cmpWriteInProgress) ==> ccr1 == old(ccr1) && ccr1Syncing == old(ccr1Syncing)
    {
      if !cmpWriteInProgress {
        cmpWriteInProgress := true;
        WriteCompare(CompareFor(idealCmp));
      }
    }

    // ---- vPortSuppressTicksAndSleep ----

    // Plans the sleep and moves the tick interrupt to its end (lines 341-413).
    method EnterSleep(expectedIdleTime: nat) returns (idle: nat, endCmp: u16)
      requires Valid() && world.phase.Awake? && expectedIdleTime >= 2
      modifies this
      ensures Valid() && idle == Planned(cfg, expectedIdleTime) && world == Entered(cfg, old(world), idle)
      ensures world.phase == Asleep(idle, world.s.ideal) && endCmp == idealCmp
      ensures !old(cmpWriteInProgress) ==> Holds(idealCmp) && ccr1Syncing
    {
      idle := PlanSleep(expectedIdleTime);
      Postpone(U32(idle - 1), world.s);
      tickNowSuppressed := true;
      WriteIdealIfPossible();
      endCmp := idealCmp;
      world := Entered(cfg, world, idle);
    }

    method PlanSleep(expectedIdleTime: nat) returns (idle: nat)
      requires Constant() && expectedIdleTime >= 1
      ensures idle == Planned(cfg, expectedIdleTime)
      ensures 1 <= idle <= maximumSuppressedTicks && U32(idle - 1) == idle - 1
    {
      SomeTicksFit(cfg);
      IdleFits(cfg);
      idle := if expectedIdleTime > maximumSuppressedTicks then maximumSuppressedTicks else expectedIdleTime;
    }

    // Moves the tick to the end of the sleep (lines 351-352, 381-386 and 407).
    method Postpone(ticks: nat, ghost s: Sched)
      requires Constant() && Schedules(s) && ticks <= maximumSuppressedTicks
      modifies this`idealCmp, this`runningSubcountError
      ensures Schedules(Postponed(cfg, s, ticks))
    {
      TicksFit(cfg, ticks);
      var extraCounts := U32(ticks * cfg.C) / cfg.T;
      var extraError := U32(ticks * cfg.C) % cfg.T;
      runningSubcountError := runningSubcountError + extraError;
      if runningSubcountError > cfg.T / 2 {
        extraCounts := extraCounts + 1;
        runningSubcountError := runningSubcountError - cfg.T;
      }
      AddIn16Bits(s.ideal, extraCounts);
      idealCmp := (idealCmp + extraCounts) % 0x1_0000;
    }

    // The sleep loop goes on unless a task became ready or the tick ended the sleep (line 464).
    method SleepsOn(endCmp: u16, abortSleep: bool) returns (again: bool)
      requires Valid() && world.phase.Asleep? && endCmp == Mod16(world.phase.end)
      ensures again <==> world.SeemsAsleep() && !abortSleep
    {
      again := idealCmp == endCmp && !abortSleep;
    }

    /** Counts the ticks that elapsed, and after an early wake-up reschedules the first one that has not
        (lines 479-604).  Where the source asserts that fewer ticks are left than were planned, the result
        `sound` says whether they are. */
    method AssessSleep(idle: nat, endCmp: u16) returns (completeTickPeriods: int, sound: bool)
      requires Valid() && world.phase.Asleep?
      requires 1 <= idle == world.phase.idle && endCmp == Mod16(world.phase.end)
      modifies this
      ensures Valid() && world == Assessed(cfg, old(world), EarlyTicks(cfg, old(world)))
      ensures world.phase == Stepping(completeTickPeriods)
      ensures sound <==> EarlyTicks(cfg, old(world)) < idle
      ensures !old(cmpWriteInProgress) ==>
                if completeTickPeriods == idle - 1 then ccr1 == old(ccr1) && !cmpWriteInProgress
                else Holds(idealCmp) && ccr1Syncing
    {
      completeTickPeriods := idle - 1;
      var fullTicksLeft := TicksLeft(idle, endCmp);
      sound := fullTicksLeft < idle;
      if fullTicksLeft != 0 {
        completeTickPeriods := completeTickPeriods - fullTicksLeft;
        Rewind(fullTicksLeft, world.s);
        WriteIdealIfPossible();
      }
      tickNowSuppressed := false;
      world := Assessed(cfg, world, fullTicksLeft);
    }

    // The whole ticks left before the planned end of the sleep (lines 488-557).
    method TicksLeft(idle: nat, endCmp: u16) returns (fullTicksLeft: nat)
      requires Constant() && Schedules(world.s) && count == world.count && world.phase.Asleep?
      requires 1 <= idle == world.phase.idle && endCmp == Mod16(world.phase.end)
      ensures fullTicksLeft == EarlyTicks(cfg, world) <= maximumSuppressedTicks
    {
      var window := LargestWindow();
      var early, fullCountsLeft := CountsLeft(endCmp, window);
      fullTicksLeft := 0;
      SomeTicksFit(cfg);
      if early {
        fullTicksLeft := TicksIn(fullCountsLeft, idle);
        TicksInWindow(cfg, fullCountsLeft, idle);
      }
    }

    method CountsLeft(endCmp: u16, window: nat) returns (early: bool, fullCountsLeft: u16)
      requires Schedules(world.s) && count == world.count
      requires world.phase.Asleep? && endCmp == Mod16(world.phase.end)
      ensures early <==> world.SeemsAsleep() && Mod16(world.Left()) <= window
      ensures early ==> fullCountsLeft == Mod16(world.Left())
    {
      early, fullCountsLeft := false, 0;
      if idealCmp == endCmp {
        DifferenceIn16Bits(world.s.ideal, count);
        var currCount := count % 0x1_0000;
        fullCountsLeft := (idealCmp - currCount - 1) % 0x1_0000;
        early := fullCountsLeft <= window;
      }
    }

    method TicksIn(fullCountsLeft: u16, idle: nat) returns (fullTicksLeft: nat)
      requires Constant() && idle >= 1
      ensures fullTicksLeft == FullTicks(cfg, fullCountsLeft, idle)
    {
      NonNegativeTicks(cfg, fullCountsLeft);
      fullTicksLeft := U32(fullCountsLeft * cfg.T) / cfg.C;
      if fullTicksLeft == idle {
        fullTicksLeft := idle - 1;
      }
    }

    method LargestWindow() returns (counts: nat)
      requires Constant()
      ensures counts == cfg.MaxCounts() < 0x1_0000
    {
      SomeTicksFit(cfg);
      TicksFit(cfg, maximumSuppressedTicks);
      CountsBelowWindow(cfg);
      counts := U32(maximumSuppressedTicks * cfg.C) / cfg.T;
    }

    // Moves the tick back by the ticks left (lines 562-586).
    method Rewind(ticks: nat, ghost s: Sched)
      requires Constant() && Schedules(s) && ticks <= maximumSuppressedTicks
      modifies this`idealCmp, this`runningSubcountError
      ensures Schedules(Rewound(cfg, s, ticks))
    {
      TicksFit(cfg, ticks);
      var counts := U32(ticks * cfg.C) / cfg.T;
      var extraError := U32(ticks * cfg.C) % cfg.T;
      runningSubcountError := runningSubcountError - extraError;
      if runningSubcountError < -(cfg.T / 2) {
        counts := counts + 1;
        runningSubcountError := runningSubcountError + cfg.T;
      }
      SubIn16Bits(s.ideal, counts);
      idealCmp := (idealCmp - counts) % 0x1_0000;
    }

    // vTaskStepTick (line 609).
    method StepTick(completeTickPeriods: int)
      requires Valid() && world.phase == Stepping(completeTickPeriods)
      modifies this`tickCount, this`world
      ensures Valid() && world == Next(cfg, old(world), StepTicks)
      ensures tickCount == old(tickCount) + completeTickPeriods
    {
      tickCount := tickCount + completeTickPeriods;
      world := Next(cfg, world, StepTicks);
    }

    // ---- LPTIM_IRQHandler ----

    // `synced` says that a pending compare write finishes while the handler looks for a tick.
    method HandleInterrupt(synced: bool)
      requires Valid()
      modifies this
      ensures Valid() && world == Interrupted(cfg, old(world))
      ensures !cmp1Ok && count == old(count)
      ensures tickCount == old(tickCount) + world.s.k - old(world.s.k)
      ensures 0 <= old(world.Late()) < timerCountsForOneTick ==>
                tickCount == old(tickCount) + 1 && !(old(world.StillAsleep()) && world.SeemsAsleep())
      // a write that is under way goes on
      ensures old(ccr1Syncing) && !synced ==> ccr1 == old(ccr1) && ccr1Syncing && cmpWriteInProgress
      // one that has finished is followed by another exactly if the register does not hold the ideal value
      ensures old(cmp1Ok) || (old(ccr1Syncing) && synced) ==>
                if (old(ccr1) - idealCmp) % 0x1_0000 <= 1
                then ccr1 == old(ccr1) && !ccr1Syncing && !cmpWriteInProgress
                else Holds(idealCmp) && ccr1Syncing && cmpWriteInProgress
      // and when there was none, a tick starts one, which may finish at once
      ensures !old(cmpWriteInProgress) ==>
                if tickCount == old(tickCount) then ccr1 == old(ccr1) && !ccr1Syncing && !cmpWriteInProgress
                else Holds(idealCmp) && ccr1Syncing == cmpWriteInProgress == !synced
    {
      hide Interrupted, World.SeemsAsleep, World.StillAsleep, World.Late;
      EndOfSleep(world);
      PollTick();
      AcknowledgeWrite(synced);
    }

    // Sees whether a compare write has finished, and writes again if the value is no longer the ideal one
    // (lines 744-763).
    method AcknowledgeWrite(synced: bool)
      requires Handshake()
      modifies this`ccr1, this`ccr1Syncing, this`cmp1Ok, this`cmpWriteInProgress
      ensures Handshake() && !cmp1Ok
      ensures var finished := old(cmp1Ok) || (old(ccr1Syncing) && synced);
              if !finished then
                ccr1 == old(ccr1) && ccr1Syncing == old(ccr1Syncing) && cmpWriteInProgress == old(cmpWriteInProgress)
              else if (old(ccr1) - idealCmp) % 0x1_0000 <= 1 then
                ccr1 == old(ccr1) && !ccr1Syncing && !cmpWriteInProgress
              else
                Holds(idealCmp) && ccr1Syncing && cmpWriteInProgress
    {
      if synced && ccr1Syncing {
        ccr1Syncing, cmp1Ok := false, true;
      }
      if cmp1Ok {
        cmp1Ok := false;
        if (ccr1 - idealCmp) % 0x1_0000 > 1 {
          WriteCompare(CompareFor(idealCmp));
        } else {
          cmpWriteInProgress := false;
        }
      }
    }

    // What an interrupt at the planned end of a sleep does.
    lemma {:induction false} EndOfSleep(w: World)
      requires Constant()
      ensures 0 <= w.Late() < timerCountsForOneTick ==>
                var after := Interrupted(cfg, w);
                after.s.k == w.s.k + 1 && !(w.StillAsleep() && after.SeemsAsleep())
    {
      if 0 <= w.Late() < timerCountsForOneTick {
        TwoTicksFit(cfg);
        InterruptDoes(cfg, w);
        if w.StillAsleep() { SleepEnds(cfg, w); }
      }
    }

    // Sees whether it is time for a tick (lines 651-737).
    method PollTick()
      requires Valid()
      modifies this`idealCmp, this`runningSubcountError, this`tickCount, this`world
      modifies this`ccr1, this`ccr1Syncing, this`cmpWriteInProgress
      ensures Valid() && world == Interrupted(cfg, old(world))
      ensures tickCount == old(tickCount) + world.s.k - old(world.s.k)
      ensures old(tickCount) <= tickCount <= old(tickCount) + 1
      ensures old(cmpWriteInProgress) || tickCount == old(tickCount) ==>
                ccr1 == old(ccr1) && ccr1Syncing == old(ccr1Syncing) && cmpWriteInProgress == old(cmpWriteInProgress)
      ensures !old(cmpWriteInProgress) && tickCount != old(tickCount) ==>
                Holds(idealCmp) && ccr1Syncing && cmpWriteInProgress
    {
      TwoTicksFit(cfg);
      DifferenceIn16Bits(count, world.s.ideal);
      ghost var s := world.s;
      var countValue := count % 0x1_0000;
      var countsLate := (countValue - idealCmp) % 0x1_0000;
      if && countsLate >= timerCountsForOneTick
         && countsLate < 65536 - 1 - timerCountsForOneTick
         && !tickNowSuppressed
      {
        idealCmp := countValue;
        countsLate := 0;
        s := Rebased(cfg, s, count);
      }
      if countsLate < timerCountsForOneTick {
        ScheduleNextTick(s);
        WriteIdealIfPossible();
        tickCount := tickCount + 1;
      }
      world := Interrupted(cfg, world);
    }

    // Sets up the next tick (lines 694-726).
    method ScheduleNextTick(ghost s: Sched)
      requires Constant() && Schedules(s)
      modifies this`idealCmp, this`runningSubcountError
      ensures Schedules(AfterTick(cfg, s))
    {
      var numCounts := timerCountsForOneTick;
      runningSubcountError := runningSubcountError + subcountErrorPerTick;
      if cfg.C % cfg.T < cfg.T / 2 {
        if runningSubcountError >= cfg.T / 2 {
          numCounts := numCounts + 1;
          runningSubcountError := runningSubcountError - cfg.T;
        }
      } else {
        if runningSubcountError <= -(cfg.T / 2) {
          numCounts := numCounts - 1;
          runningSubcountError := runningSubcountError + cfg.T;
        }
      }
      AddIn16Bits(s.ideal, numCounts);
      idealCmp := (idealCmp + numCounts) % 0x1_0000;
    }
  }

  // ---- 16- and 32-bit arithmetic ----

  lemma {:induction false} AddIn16Bits(a: int, b: int)
    ensures (Mod16(a) + b) % 0x1_0000 == Mod16(a + b)
  {
  }

  lemma {:induction false} SubIn16Bits(a: int, b: int)
    ensures (Mod16(a) - b) % 0x1_0000 == Mod16(a - b)
  {
  }

  lemma {:induction false} DifferenceIn16Bits(a: int, b: int)
    ensures (Mod16(a) - Mod16(b)) % 0x1_0000 == Mod16(a - b)
    ensures (Mod16(a) - Mod16(b) - 1) % 0x1_0000 == Mod16(a - b - 1)
  {
    SubIn16Bits(a, Mod16(b));
    SubIn16Bits(a, Mod16(b) + 1);
    var q := b / 0x1_0000;
    assert b == q * 0x1_0000 + Mod16(b);
    WholeRounds(a - b, q);
    WholeRounds(a - b - 1, q);
  }

  lemma {:induction false} WholeRounds(a: int, q: int)
    ensures Mod16(a + q * 0x1_0000) == Mod16(a)
  {
  }

  // No 32-bit product of the sleep path wraps.
  lemma {:induction false} TicksFit(cfg: Config, ticks: nat)
    requires cfg.Valid() && cfg.C > 0 && ticks <= cfg.MaxSuppressed()
    ensures U32(ticks * cfg.C) == ticks * cfg.C >= 0
  {
    MaxSuppressedFits(cfg);
    AtLeast(cfg.MaxSuppressed(), ticks, cfg.C);
    AtLeast(ticks, 0, cfg.C);
  }

  lemma {:induction false} IdleFits(cfg: Config)
    requires cfg.Valid() && cfg.C > 0
    ensures cfg.MaxSuppressed() < 0x1_0000_0000
  {
    AtLeast(cfg.C, 1, 0x1_0000_0000);
    QuotientIsLargest(0x1_0000 * cfg.T, cfg.C, 0x1_0000_0000);
    Distribute(0x1_0000_0000, 1, cfg.C);
  }

  lemma {:induction false} CountsFit(cfg: Config, counts: nat)
    requires cfg.Valid() && counts < 0x1_0000
    ensures U32(counts * cfg.T) == counts * cfg.T >= 0
  {
    AtLeast(0xFFFF, counts, cfg.T);
    AtLeast(counts, 0, cfg.T);
  }

  lemma {:induction false} NonNegativeTicks(cfg: Config, counts: nat)
    requires cfg.Valid() && cfg.C > 0 && counts < 0x1_0000
    ensures U32(counts * cfg.T) == counts * cfg.T && counts * cfg.T / cfg.C >= 0
  {
    CountsFit(cfg, counts);
    QuotientIsLargest(counts * cfg.T, cfg.C, 0);
  }

  // The ticks in an accepted number of counts are no more than the longest sleep's.
  lemma {:induction false} TicksInWindow(cfg: Config, counts: nat, idle: nat)
    requires cfg.Valid() && cfg.C > 0 && counts <= cfg.MaxCounts()
    ensures FullTicks(cfg, counts, idle) <= cfg.MaxSuppressed()
  {
    var most := cfg.MaxSuppressed() * cfg.C;
    QuotientIsLargest(most, cfg.T, 0);
    AtLeast(cfg.MaxCounts(), counts, cfg.T);
    Distribute(cfg.MaxSuppressed(), 1, cfg.C);
    QuotientIsLargest(counts * cfg.T, cfg.C, cfg.MaxSuppressed());
  }
}
