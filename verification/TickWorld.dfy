/**
 The tick schedule driven by its three writers (set-up, the idle task's sleep path and the timer
 interrupt) while the hardware counter runs, as a state machine on unbounded integers.

 `count` is the number of counter increments since set-up; the hardware register shows it modulo
 65536, and the code decides by that.  Each event is one stretch of code that runs with the tick
 interrupt masked.
 */
module TickWorld {
  import opened TickSchedule

  /** Where the idle task is.
      - Awake: not in vPortSuppressTicksAndSleep.
      - Asleep: the tick is suppressed; the sleep was planned to end with the tick on count `end`.
      - Stepping: the sleep was assessed, and `pending` ticks are about to be given to the kernel. */
  datatype Phase = Awake | Asleep(idle: nat, end: int) | Stepping(pending: int)

  datatype World = World(count: nat, s: Sched, kernel: int, phase: Phase) {

    // How many counts ago the next tick was placed (negative: still to come).
    function Late(): int {
      count - s.ideal
    }

    // Counts left before the next tick, without the one under way.
    function Left(): int {
      s.ideal - count - 1
    }

    // The planned end of the sleep has not been ticked.
    predicate StillAsleep() {
      phase.Asleep? && s.ideal == phase.end
    }

    // What the code sees of it: 16 bits of each.
    predicate SeemsAsleep() {
      phase.Asleep? && Mod16(s.ideal) == Mod16(phase.end)
    }

    // Ticks promised to the kernel but not yet given.
    function Pending(): int {
      match phase
      case Awake => 0
      case Asleep(idle, _) => idle - 1
      case Stepping(pending) => pending
    }

    // The first tick that has not been credited to the past.
    function FirstUncredited(): int {
      if StillAsleep() then s.k - (phase.idle - 1) else s.k
    }
  }

  datatype Event =
    | Count(counts: nat)
    | Interrupt
    | Enter(expectedIdle: nat)
    | Assess
    | StepTicks

  function Start(cfg: Config): World
    requires cfg.Valid()
  {
    World(0, First(cfg), 0, Awake)
  }

  function Planned(cfg: Config, expectedIdle: nat): nat
    requires cfg.Valid()
    ensures 1 <= Planned(cfg, expectedIdle) <= cfg.MaxSuppressed() || expectedIdle == 0
  {
    SomeTicksFit(cfg);
    if expectedIdle > cfg.MaxSuppressed() then cfg.MaxSuppressed() else expectedIdle
  }

  lemma {:induction false} SomeTicksFit(cfg: Config)
    requires cfg.Valid()
    ensures cfg.C > 0 && cfg.MaxSuppressed() >= 1
  {
    LongestSleep(cfg);
  }

  function FullTicks(cfg: Config, left: nat, idle: nat): int
    requires cfg.C > 0
  {
    var q := left * cfg.T / cfg.C;
    if q == idle then idle - 1 else q
  }

  // The whole ticks by which a sleep ended early, as the sleep path reckons in 16 bits.
  function EarlyTicks(cfg: Config, w: World): (ticks: int)
    requires cfg.Valid() && cfg.C > 0
  {
    if w.SeemsAsleep() && Mod16(w.Left()) <= cfg.MaxCounts() then FullTicks(cfg, Mod16(w.Left()), w.phase.idle) else 0
  }

  // And as they are, where the guard accepts the wake-up.
  function TrueEarlyTicks(cfg: Config, w: World): int
    requires cfg.Valid() && cfg.C > 0
  {
    if w.StillAsleep() && w.Left() >= 0 && Accepted(cfg, w) then FullTicks(cfg, w.Left(), w.phase.idle) else 0
  }

  // The test that guards the rescheduling of the tick after an early wake-up.
  predicate Accepted(cfg: Config, w: World)
    requires cfg.C > 0 && cfg.T > 0
  {
    w.Left() <= cfg.MaxCounts()
  }

  // ---- the interrupt's decision ----

  datatype Verdict = Ignore | Tick | Dropped

  // What the interrupt decides from the 16-bit difference of its two registers.
  function Decide(n: nat, diff: nat, suppressed: bool): Verdict {
    if diff >= n && diff < 0x1_0000 - 1 - n && !suppressed then Dropped
    else if diff < n then Tick
    else Ignore
  }

  // What it ought to decide from the true lateness.
  function Truth(n: nat, late: int, suppressed: bool): Verdict {
    if late < 0 then Ignore
    else if late < n then Tick
    else if suppressed then Ignore
    else Dropped
  }

  function Decided(cfg: Config, w: World): Verdict
    requires cfg.Valid()
  {
    Decide(cfg.CountsPerTick(), Mod16(w.Late()), w.phase.Asleep?)
  }

  function TrueVerdict(cfg: Config, w: World): Verdict
    requires cfg.Valid()
  {
    Truth(cfg.CountsPerTick(), w.Late(), w.phase.Asleep?)
  }

  // ---- one step ----

  // The order of the idle task's stretches; the counter and the interrupt come at any time.
  predicate Enabled(w: World, ev: Event) {
    match ev
    case Count(_) => true
    case Interrupt => true
    case Enter(expectedIdle) => w.phase.Awake? && expectedIdle >= 2
    case Assess => w.phase.Asleep?
    case StepTicks => w.phase.Stepping?
  }

  function Next(cfg: Config, w: World, ev: Event): World
    requires cfg.Valid() && cfg.C > 0
  {
    match ev
    case Count(counts) => w.(count := w.count + counts)
    case Interrupt => Interrupted(cfg, w)
    case Enter(expectedIdle) => if expectedIdle == 0 then w else Entered(cfg, w, Planned(cfg, expectedIdle))
    case Assess => if w.phase.Asleep? then Assessed(cfg, w, EarlyTicks(cfg, w)) else w
    case StepTicks => w.(kernel := w.kernel + w.Pending(), phase := Awake)
  }

  function Interrupted(cfg: Config, w: World): World
    requires cfg.Valid()
  {
    match Decided(cfg, w)
    case Ignore => w
    case Tick => w.(s := AfterTick(cfg, w.s), kernel := w.kernel + 1)
    case Dropped => w.(s := AfterTick(cfg, Rebased(cfg, w.s, w.count)), kernel := w.kernel + 1)
  }

  function Entered(cfg: Config, w: World, idle: nat): World
    requires cfg.Valid() && idle >= 1
  {
    var s := Postponed(cfg, w.s, idle - 1);
    w.(s := s, phase := Asleep(idle, s.ideal))
  }

  function Assessed(cfg: Config, w: World, ticks: int): World
    requires cfg.Valid() && w.phase.Asleep?
  {
    if ticks > 0 then
      w.(s := Rewound(cfg, w.s, ticks), phase := Stepping(w.phase.idle - 1 - ticks))
    else
      w.(phase := Stepping(w.phase.idle - 1))
  }

  // ---- invariants ----

  // Holds in every run, whatever the delays and whatever the code takes them for.  Ticks dropped, rightly
  // or not, move the schedule by whole counts.
  ghost predicate Exact(cfg: Config, w: World) {
    && OnSchedule(cfg, w.s)
    && w.kernel + w.Pending() + 1 == w.s.k
    && IsMultiple(w.s.shift, cfg.T)
    && (w.phase.Asleep? ==> 1 <= w.phase.idle && w.phase.end <= w.s.ideal)
  }

  predicate IsMultiple(a: int, t: int) {
    t > 0 && a % t == 0
  }

  lemma {:induction false} MultiplePlus(a: int, m: int, t: int)
    requires IsMultiple(a, t)
    ensures IsMultiple(a + m * t, t)
  {
    Divide(a, t);
    Distribute(a / t, m, t);
    QuotientIs(a + m * t, t, a / t + m, 0);
  }

  // Every credited tick was due by the next count, to half a count.
  ghost predicate Timely(cfg: Config, w: World)
    requires cfg.Valid() && cfg.C > 0
  {
    && (w.FirstUncredited() - 1) * cfg.C + w.s.shift < (w.count + 1) * cfg.T + cfg.HalfUp()
    && (w.phase.Asleep? ==> w.phase.idle <= cfg.MaxSuppressed())
  }

  lemma {:induction false} StartInvariants(cfg: Config)
    requires cfg.Valid() && cfg.C > 0
    ensures Exact(cfg, Start(cfg)) && Timely(cfg, Start(cfg)) && Near(cfg, Start(cfg))
  {
    hide MayPassMargin, Rewound, Config.MaxSuppressed;
    Constants(cfg);
    FirstOnSchedule(cfg);
  }

  lemma {:induction false} NextExact(cfg: Config, w: World, ev: Event)
    requires cfg.Valid() && cfg.C > 0
    requires Exact(cfg, w) && Enabled(w, ev)
    ensures Exact(cfg, Next(cfg, w, ev))
  {
    match ev
    case Count(_) =>
    case Interrupt =>
      InterruptExact(cfg, w);
    case Enter(expectedIdle) =>
      SomeTicksFit(cfg);
      PostponedOnSchedule(cfg, w.s, Planned(cfg, expectedIdle) - 1);
    case Assess =>
      NoNegativeTicks(cfg, w);
      RewoundOnSchedule(cfg, w.s, EarlyTicks(cfg, w));
    case StepTicks =>
  }

  lemma {:induction false} InterruptExact(cfg: Config, w: World)
    requires cfg.Valid() && cfg.C > 0 && Exact(cfg, w)
    ensures Exact(cfg, Interrupted(cfg, w))
  {
    var s := Rebased(cfg, w.s, w.count);
    RebasedOnSchedule(cfg, w.s, w.count);
    MultiplePlus(w.s.shift, w.Late(), cfg.T);
    AfterTickOnSchedule(cfg, w.s);
    AfterTickOnSchedule(cfg, s);
  }

  lemma {:induction false} NoNegativeTicks(cfg: Config, w: World)
    requires cfg.Valid() && cfg.C > 0
    requires w.phase.Asleep? ==> w.phase.idle >= 1
    ensures EarlyTicks(cfg, w) >= 0
  {
    AtLeast(Mod16(w.Left()), 0, cfg.T);
    QuotientIsLargest(Mod16(w.Left()) * cfg.T, cfg.C, 0);
  }

  // ---- the early wake-up ----

  // Left(), in subcounts, from the schedule's identity.
  lemma {:induction false} LeftInSubcounts(cfg: Config, w: World)
    requires OnSchedule(cfg, w.s)
    ensures w.Left() * cfg.T == w.s.k * cfg.C + w.s.shift - w.s.err - (w.count + 1) * cfg.T
  {
    Distribute(w.Left(), w.count + 1, cfg.T);
  }

  // While the sleep's end has not been ticked, little more than the sleep itself is left.
  lemma {:induction false} LeftAtMostIdle(cfg: Config, w: World)
    requires cfg.Valid() && cfg.C > 0
    requires Exact(cfg, w) && Timely(cfg, w) && w.StillAsleep()
    ensures w.Left() * cfg.T <= w.phase.idle * cfg.C + cfg.T
  {
    LeftInSubcounts(cfg, w);
    Distribute(w.s.k - w.phase.idle, w.phase.idle, cfg.C);
  }

  // configASSERT( xFullTicksLeft < xExpectedIdleTime ) never fires.
  lemma {:induction false} FullTicksBelowIdle(cfg: Config, w: World)
    requires cfg.Valid() && cfg.C > 0
    requires Exact(cfg, w) && Timely(cfg, w) && w.StillAsleep() && w.Left() >= 0
    ensures 0 <= FullTicks(cfg, w.Left(), w.phase.idle) < w.phase.idle
    ensures 0 <= w.Left() * cfg.T / cfg.C <= w.phase.idle
  {
    LeftAtMostIdle(cfg, w);
    Constants(cfg);
    AtLeast(w.Left(), 0, cfg.T);
    Distribute(w.phase.idle, 1, cfg.C);
    QuotientIsLargest(w.Left() * cfg.T, cfg.C, w.phase.idle);
    QuotientIsLargest(w.Left() * cfg.T, cfg.C, 0);
  }

  /** Rescheduling after an early wake-up is exact: the tick chosen comes at the next count or later,
      unless its ticks fill the counts left to the last and the tick slept to was more than half a
      count late, and the tick before the one chosen was due, to half a count, by the next count.  So it
      is the first tick not yet skipped.  With an even tick rate the exception does not occur. */
  lemma {:induction false} EarlyWakeExact(cfg: Config, w: World)
    requires cfg.Valid() && cfg.C > 0
    requires Exact(cfg, w) && Timely(cfg, w) && w.StillAsleep()
    requires w.Left() >= 0 && Accepted(cfg, w)
    ensures var ticks := FullTicks(cfg, w.Left(), w.phase.idle);
            var s := Next(cfg, w, Assess).s;
            && 0 <= ticks < w.phase.idle
            && s.k == w.s.k - ticks
            && (s.k - 1) * cfg.C + s.shift < (w.count + 1) * cfg.T + cfg.HalfUp()
            && s.ideal >= w.count
            && (s.ideal >= w.count + 1 <==> !(ticks > 0 && ticks * cfg.C == w.Left() * cfg.T && w.s.err < -(cfg.T / 2)))
    ensures cfg.T % 2 == 0 ==> w.s.err >= -(cfg.T / 2)
  {
    hide EarlyTicks;
    FullTicksBelowIdle(cfg, w);
    AcceptedTicks(cfg, w);
    var ticks := FullTicks(cfg, w.Left(), w.phase.idle);
    AtLeast(w.Left() * cfg.T / cfg.C, ticks, cfg.C);
    QuotientIsLargest(w.Left() * cfg.T, cfg.C, 0);
    RewoundStaysAhead(cfg, w.s, ticks, w.Left());
    TickBeforeWasDue(cfg, w, ticks);
  }

  // 16 bits show an accepted early wake-up as it is.
  lemma {:induction false} AcceptedTicks(cfg: Config, w: World)
    requires cfg.Valid() && cfg.C > 0
    requires Exact(cfg, w) && Timely(cfg, w) && w.StillAsleep()
    requires w.Left() >= 0 && Accepted(cfg, w)
    ensures EarlyTicks(cfg, w) == FullTicks(cfg, w.Left(), w.phase.idle)
  {
    hide FullTicks, Config.MaxCounts, Mod16;
    FutureNotPast(cfg, w);
    SmallIn16Bits(w.Left());
  }

  lemma {:induction false} RewoundStaysAhead(cfg: Config, s: Sched, ticks: nat, left: nat)
    requires cfg.Valid() && ticks * cfg.C <= left * cfg.T
    ensures Rewound(cfg, s, ticks).ideal >= s.ideal - left - 1
    ensures Rewound(cfg, s, ticks).ideal >= s.ideal - left <==> !(ticks * cfg.C == left * cfg.T && s.err < -(cfg.T / 2))
  {
    CountsWithin(ticks * cfg.C, cfg.T, left);
  }

  lemma {:induction false} CountsWithin(subcounts: nat, t: nat, left: nat)
    requires t > 0 && subcounts <= left * t
    ensures subcounts / t <= left
    ensures subcounts / t == left <==> subcounts == left * t
    ensures subcounts / t == left ==> subcounts % t == 0
  {
    Divide(subcounts, t);
    Distribute(left, 1, t);
    QuotientIsLargest(subcounts, t, left);
  }

  lemma {:induction false} TickBeforeWasDue(cfg: Config, w: World, ticks: nat)
    requires cfg.Valid() && cfg.C > 0
    requires Exact(cfg, w) && Timely(cfg, w) && w.StillAsleep() && w.Left() >= 0
    requires ticks == FullTicks(cfg, w.Left(), w.phase.idle)
    ensures (w.s.k - ticks - 1) * cfg.C + w.s.shift < (w.count + 1) * cfg.T + cfg.HalfUp()
  {
    var q := w.Left() * cfg.T / cfg.C;
    if q != w.phase.idle {
      LeftInSubcounts(cfg, w);
      QuotientIsLargest(w.Left() * cfg.T, cfg.C, q);
      Distribute(w.s.k - (q + 1), q + 1, cfg.C);
    }
  }

  // "First not yet skipped", count by count: every nearest count of the tick before the chosen one
  // has been reached by the next count.
  lemma {:induction false} TickBeforeIsPast(cfg: Config, w: World, p: int)
    requires cfg.Valid() && cfg.C > 0 && cfg.T % 2 == 0
    requires Timely(cfg, w)
    requires 2 * (p * cfg.T - ((w.FirstUncredited() - 1) * cfg.C + w.s.shift)) <= cfg.T
    ensures p <= w.count + 1
  {
    if p > w.count + 1 {
      AtLeast(p, w.count + 2, cfg.T);
      Distribute(w.count + 1, 1, cfg.T);
    }
  }

  /** The window that guards the rescheduling accepts exactly the wake-ups from a sleep shorter than the
      longest, or with no more counts left than the sleep itself takes: that is, when the tick credited
      last before the sleep was due by the next count, with the error of the sleep's end. */
  lemma {:induction false} WindowAccepts(cfg: Config, w: World)
    requires cfg.Valid() && cfg.C > 0
    requires Exact(cfg, w) && Timely(cfg, w) && w.StillAsleep()
    ensures Accepted(cfg, w)
       <==> || w.phase.idle < cfg.MaxSuppressed()
            || (w.s.k - w.phase.idle) * cfg.C + w.s.shift <= (w.count + 1) * cfg.T + w.s.err
  {
    LeftAtMostIdle(cfg, w);
    LeftInSubcounts(cfg, w);
    Constants(cfg);
    Distribute(w.s.k - w.phase.idle, w.phase.idle, cfg.C);
    QuotientIsLargest(cfg.MaxSuppressed() * cfg.C, cfg.T, w.Left());
    if w.phase.idle < cfg.MaxSuppressed() {
      Distribute(w.phase.idle, 1, cfg.C);
      AtLeast(cfg.MaxSuppressed(), w.phase.idle + 1, cfg.C);
    } else if Accepted(cfg, w) {
      AtLeast(cfg.MaxCounts(), w.Left(), cfg.T);
    }
  }

  // While the tick is suppressed, a compare value in the future is far enough from wrapping that
  // the interrupt never takes it for a past one.
  lemma {:induction false} FutureNotPast(cfg: Config, w: World)
    requires cfg.Valid() && cfg.C > 0
    requires Exact(cfg, w) && Timely(cfg, w) && w.StillAsleep()
    ensures cfg.CountsPerTick() - 0x1_0000 <= w.Late()
  {
    var n := cfg.CountsPerTick();
    LeftAtMostIdle(cfg, w);
    AtLeast(cfg.MaxSuppressed(), w.phase.idle, cfg.C);
    MaxSuppressedFits(cfg);
    Constants(cfg);
    TwoTicks(cfg.C, cfg.T, n);
    BelowTheMargin(w.Left(), n, cfg.T);
  }

  lemma {:induction false} BelowTheMargin(left: int, n: int, t: nat)
    requires left * t <= 0x1_0000 * t - n * t - 2 * t && t > 0
    ensures left < 0x1_0000 - n
  {
    if left >= 0x1_0000 - n {
      AtLeast(left, 0x1_0000 - n, t);
      Distribute(0x1_0000, -n, t);
    }
  }

  lemma {:induction false} MaxSuppressedFits(cfg: Config)
    requires cfg.C > 0
    ensures cfg.MaxSuppressed() * cfg.C + 2 * cfg.C <= 0x1_0000 * cfg.T
  {
    QuotientIsLargest(0x1_0000 * cfg.T, cfg.C, 0);
    Distribute(cfg.MaxSuppressed(), 2, cfg.C);
  }

  lemma {:induction false} TwoTicks(c: int, t: nat, n: int)
    requires n >= 4 && 2 * (n * t - c) <= t
    ensures 2 * c >= n * t + 3 * t
  {
    AtLeast(n, 4, t);
  }

  // When the tick is not suppressed it is at most n + 2 counts away, and at most n + 1 (the margin the
  // interrupt allows) when the configuration never passes the margin.
  lemma {:induction false} TickIsNear(cfg: Config, w: World)
    requires cfg.Valid() && cfg.C > 0
    requires Exact(cfg, w) && Timely(cfg, w) && !w.StillAsleep()
    ensures w.Late() >= -(cfg.CountsPerTick() + 2)
    ensures Near(cfg, w) && !MayPassMargin(cfg) ==> w.Late() >= -(cfg.CountsPerTick() + 1)
    ensures (w.s.k - 1) * cfg.C + w.s.shift < w.count * cfg.T + cfg.HalfUp()
        ==> w.Late() >= -(cfg.CountsPerTick() + 1)
  {
    var left, n, C, T := w.Left(), cfg.CountsPerTick(), cfg.C, cfg.T;
    Constants(cfg);
    LeftInSubcounts(cfg, w);
    Distribute(w.s.k, -1, C);
    Distribute(w.count, 1, T);
    Distribute(n, 1, T);
    Distribute(n, 2, T);
    if left > n + 1 { AtLeast(left, n + 2, T); }
    if left > n { AtLeast(left, n + 1, T); }
    if cfg.ErrorPerTick() == 0 { WholeTickIsNear(cfg, w); }
  }

  // When the clock is a multiple of the tick rate every tick falls on a count of its own.
  lemma {:induction false} WholeTickIsNear(cfg: Config, w: World)
    requires cfg.Valid() && cfg.C > 0 && cfg.C == cfg.CountsPerTick() * cfg.T
    requires Exact(cfg, w) && Timely(cfg, w) && !w.StillAsleep()
    ensures w.s.err == 0 && w.Late() >= -(cfg.CountsPerTick() + 1)
  {
    var n, k, m := cfg.CountsPerTick(), w.s.k, w.s.shift / cfg.T;
    WholeDue(cfg.C, cfg.T, n, k, w.s.shift);
    WholeDue(cfg.C, cfg.T, n, k - 1, w.s.shift);
    Nearest(w.s.ideal, k * n + m, w.s.err, cfg.T);
    AtMostCount((k - 1) * n + m, w.count + 1, cfg.HalfUp(), cfg.T);
    Subtract(k, 1, n);
  }

  lemma {:induction false} WholeDue(c: int, t: int, n: int, k: int, shift: int)
    requires IsMultiple(shift, t) && c == n * t
    ensures (k * n + shift / t) * t == k * c + shift
  {
    Divide(shift, t);
    Associate(k, n, t);
    Distribute(k * n, shift / t, t);
  }

  lemma {:induction false} Nearest(a: int, b: int, err: int, t: nat)
    requires t >= 2 && a * t + err == b * t && -(t - t / 2) <= err <= t - t / 2
    ensures err == 0 && a == b
  {
    Subtract(b, a, t);
    NoMultiple(b - a, t, err);
  }

  lemma {:induction false} AtMostCount(a: int, b: int, less: int, t: nat)
    requires t >= 2 && a * t < b * t + less && less <= t - t / 2
    ensures a <= b
  {
    if a > b { AtLeast(a, b + 1, t); Distribute(b, 1, t); }
  }

  // ---- what has to be prompt ----

  /** What is asked of the environment: an interrupt or an assessment is less than the counter's range
      late, whatever the schedule has ahead.  Only where a tick can be placed beyond the interrupt's
      margin must no interrupt come while it is. */
  ghost predicate Prompt(cfg: Config, w: World, ev: Event)
    requires cfg.Valid() && cfg.C > 0
  {
    var n := cfg.CountsPerTick();
    && Enabled(w, ev)
    && match ev
       case Interrupt =>
         if w.phase.Asleep? then w.Late() < 0x1_0000
         else w.Late() < 0x1_0000 - 1 - n && (MayPassMargin(cfg) ==> w.Late() >= -(n + 1))
       case Assess =>
         && w.s.ideal - w.phase.end < 0x1_0000
         && (w.StillAsleep() ==> cfg.MaxCounts() - 0x1_0000 < w.Left())
       case _ => true
  }

  // The 16-bit code takes the state for what it is, and its assertion on the ticks left holds.
  ghost predicate Truly(cfg: Config, w: World, ev: Event)
    requires cfg.Valid() && cfg.C > 0
  {
    && (ev.Interrupt? ==> Decided(cfg, w) == TrueVerdict(cfg, w))
    && (ev.Assess? && w.phase.Asleep? ==>
          && (w.SeemsAsleep() <==> w.StillAsleep())
          && EarlyTicks(cfg, w) == TrueEarlyTicks(cfg, w) < w.phase.idle)
  }

  /** The rest is the code's own doing: no future tick looks past, and no assertion fails. */
  lemma {:induction false} PromptIsTrue(cfg: Config, w: World, ev: Event)
    requires cfg.Valid() && cfg.C > 0
    requires Exact(cfg, w) && Timely(cfg, w) && Near(cfg, w) && Prompt(cfg, w, ev)
    ensures Truly(cfg, w, ev)
  {
    if ev.Interrupt? {
      InterruptIsTrue(cfg, w);
    } else if ev.Assess? {
      AssessmentIsTrue(cfg, w);
    }
  }

  lemma {:induction false} InterruptIsTrue(cfg: Config, w: World)
    requires cfg.Valid() && cfg.C > 0
    requires Exact(cfg, w) && Timely(cfg, w) && Near(cfg, w) && Prompt(cfg, w, Interrupt)
    ensures Decided(cfg, w) == TrueVerdict(cfg, w)
  {
    TwoTicksFit(cfg);
    if w.StillAsleep() {
      FutureNotPast(cfg, w);
    } else {
      TickIsNear(cfg, w);
    }
    DecisionIsTrue(cfg.CountsPerTick(), w.Late(), w.phase.Asleep?);
  }

  lemma {:induction false} AssessmentIsTrue(cfg: Config, w: World)
    requires cfg.Valid() && cfg.C > 0
    requires Exact(cfg, w) && Timely(cfg, w) && Prompt(cfg, w, Assess)
    ensures w.SeemsAsleep() <==> w.StillAsleep()
    ensures EarlyTicks(cfg, w) == TrueEarlyTicks(cfg, w) < w.phase.idle
  {
    SameIn16Bits(w.s.ideal, w.phase.end);
    if w.StillAsleep() {
      FutureNotPast(cfg, w);
      CountsBelowWindow(cfg);
      WindowIn16Bits(w.Left(), cfg.MaxCounts());
      if w.Left() >= 0 { FullTicksBelowIdle(cfg, w); }
    }
  }

  // ---- the interrupt's margin ----

  // How far past a count tick k is due, in subcounts, while no tick was dropped.
  function DueOffset(cfg: Config, k: nat): nat
    requires cfg.T > 0
  {
    k * cfg.C % cfg.T
  }

  // Some tick is due exactly half-way between two counts.
  predicate HalfwayTick(cfg: Config)
    requires cfg.T > 0
  {
    exists k :: 0 <= k < cfg.T && 2 * DueOffset(cfg, k) == cfg.T
  }

  /** Whether the next tick can come to be placed beyond the margin that the interrupt allows: ticks are
      longer than their whole counts, sleeps are long enough, and either some tick is due half-way between
      two counts or the error of a tick does not divide a count. */
  predicate MayPassMargin(cfg: Config)
    requires cfg.Valid() && cfg.C > 0
  {
    && cfg.ErrorPerTick() > 0 && cfg.MaxSuppressed() >= 3
    && (HalfwayTick(cfg) || (cfg.T % cfg.ErrorPerTick() != 0 && cfg.MaxSuppressed() >= cfg.T / cfg.ErrorPerTick() + 2))
  }

  // Where it cannot, the first tick not yet credited would be placed within the margin if the idle task
  // were to wake now.
  ghost predicate Near(cfg: Config, w: World)
    requires cfg.Valid() && cfg.C > 0
  {
    cfg.ErrorPerTick() > 0 && !MayPassMargin(cfg) ==>
      && w.s.err <= cfg.T / 2
      && if w.StillAsleep() && w.phase.idle >= 2
         then cfg.MaxSuppressed() <= 2 || WithinMargin(cfg, w, Rewound(cfg, w.s, w.phase.idle - 1))
         else WithinMargin(cfg, w, w.s)
  }

  predicate WithinMargin(cfg: Config, w: World, s: Sched)
    requires cfg.Valid()
  {
    s.ideal <= w.count + cfg.CountsPerTick() + 1
  }

  lemma {:induction false} NextNear(cfg: Config, w: World, ev: Event)
    requires cfg.Valid() && cfg.C > 0
    requires Exact(cfg, w) && Timely(cfg, w) && Near(cfg, w) && Prompt(cfg, w, ev) && !Rejected(cfg, w, ev)
    ensures Near(cfg, Next(cfg, w, ev))
  {
    if cfg.ErrorPerTick() > 0 && !MayPassMargin(cfg) {
      PromptIsTrue(cfg, w, ev);
      Constants(cfg);
      match ev
      case Count(_) =>
      case Interrupt =>
        AfterTickOnSchedule(cfg, w.s);
      case Enter(expectedIdle) =>
        SomeTicksFit(cfg);
        EnterNear(cfg, w, Planned(cfg, expectedIdle));
      case Assess =>
        AssessNear(cfg, w);
      case StepTicks =>
    }
  }

  lemma {:induction false} EnterNear(cfg: Config, w: World, idle: nat)
    requires cfg.Valid() && cfg.C > 0 && idle >= 1 && cfg.ErrorPerTick() > 0 && !MayPassMargin(cfg)
    requires Exact(cfg, w) && Near(cfg, w) && w.phase.Awake?
    ensures Near(cfg, Entered(cfg, w, idle))
  {
    var s := Postponed(cfg, w.s, idle - 1);
    PostponedAndBack(cfg, w.s, idle - 1);
    if cfg.MaxSuppressed() >= 3 && 2 * w.s.err == cfg.T { HalfwayError(cfg, w.s); }
  }

  // Postponing a tick and moving it back places it where it was or a count before, unless it was half a
  // count early.
  lemma {:induction false} PostponedAndBack(cfg: Config, s: Sched, ticks: nat)
    requires cfg.Valid() && OnSchedule(cfg, s) && s.err <= cfg.T / 2
    ensures Postponed(cfg, s, ticks).err <= cfg.T / 2
    ensures 2 * s.err < cfg.T ==> Rewound(cfg, Postponed(cfg, s, ticks), ticks).ideal <= s.ideal
    ensures Postponed(cfg, s, 0) == s
  {
    Divide(ticks * cfg.C, cfg.T);
  }

  lemma {:induction false} HalfwayError(cfg: Config, s: Sched)
    requires cfg.Valid() && OnSchedule(cfg, s) && IsMultiple(s.shift, cfg.T) && 2 * s.err == cfg.T
    ensures HalfwayTick(cfg)
  {
    var q, k := s.k / cfg.T, s.k % cfg.T;
    Divide(s.k, cfg.T);
    Divide(s.shift, cfg.T);
    var p := s.ideal - s.shift / cfg.T - q * cfg.C;
    assert k * cfg.C == p * cfg.T + s.err by {
      Distribute(q * cfg.T, k, cfg.C);
      Distribute(s.ideal - s.shift / cfg.T, -(q * cfg.C), cfg.T);
      Distribute(s.ideal, -(s.shift / cfg.T), cfg.T);
      assert q * cfg.T * cfg.C == q * cfg.C * cfg.T;
    }
    QuotientIs(k * cfg.C, cfg.T, p, s.err);
    assert 2 * DueOffset(cfg, k) == cfg.T;
  }

  lemma {:induction false} AssessNear(cfg: Config, w: World)
    requires cfg.Valid() && cfg.C > 0 && cfg.ErrorPerTick() > 0 && !MayPassMargin(cfg)
    requires Exact(cfg, w) && Timely(cfg, w) && Near(cfg, w) && w.phase.Asleep?
    requires Truly(cfg, w, Assess) && !Rejected(cfg, w, Assess)
    ensures Near(cfg, Next(cfg, w, Assess))
  {
    var ticks := EarlyTicks(cfg, w);
    NoNegativeTicks(cfg, w);
    if ticks > 0 {
      RewoundError(cfg, w.s, ticks);
      if ticks < w.phase.idle - 1 {
        NewCreditIsNear(cfg, w, ticks);
      } else if cfg.MaxSuppressed() <= 2 {
        OneTickBackIsNear(cfg, w);
      }
    } else if w.StillAsleep() && w.Left() >= 0 && w.phase.idle >= 2 {
      LessThanATick(cfg, w.Left());
    }
  }

  lemma {:induction false} RewoundError(cfg: Config, s: Sched, ticks: nat)
    requires cfg.Valid() && s.err <= cfg.T / 2
    ensures Rewound(cfg, s, ticks).err <= cfg.T / 2
  {
    Divide(ticks * cfg.C, cfg.T);
  }

  lemma {:induction false} LessThanATick(cfg: Config, left: nat)
    requires cfg.Valid() && cfg.C > 0 && left * cfg.T / cfg.C == 0
    ensures left <= cfg.CountsPerTick()
  {
    Constants(cfg);
    QuotientIsLargest(left * cfg.T, cfg.C, 0);
    if left > cfg.CountsPerTick() {
      AtLeast(left, cfg.CountsPerTick() + 1, cfg.T);
      Distribute(cfg.CountsPerTick(), 1, cfg.T);
    }
  }

  // A wake-up that credits a tick leaves less than a tick and a count before the next one.
  lemma {:induction false} NewCreditIsNear(cfg: Config, w: World, ticks: nat)
    requires cfg.Valid() && cfg.C > 0 && cfg.ErrorPerTick() > 0 && !MayPassMargin(cfg)
    requires w.phase.Asleep? && w.phase.idle <= cfg.MaxSuppressed() && w.Left() >= 0
    requires 0 < ticks < w.phase.idle - 1 && ticks == w.Left() * cfg.T / cfg.C
    ensures WithinMargin(cfg, w, Rewound(cfg, w.s, ticks))
  {
    var n, counts, rest := cfg.CountsPerTick(), ticks * cfg.C / cfg.T, ticks * cfg.C % cfg.T;
    Constants(cfg);
    Divide(ticks * cfg.C, cfg.T);
    RestIsSmall(cfg, ticks);
    QuotientIsLargest(w.Left() * cfg.T, cfg.C, ticks);
    Distribute(ticks, 1, cfg.C);
    Subtract(w.Left(), counts, cfg.T);
    Distribute(n, 1, cfg.T);
    if w.Left() - counts > n { AtLeast(w.Left() - counts, n + 1, cfg.T); }
  }

  lemma {:induction false} RestIsSmall(cfg: Config, ticks: nat)
    requires cfg.Valid() && cfg.ErrorPerTick() > 0
    requires cfg.T % cfg.ErrorPerTick() == 0 || ticks < cfg.T / cfg.ErrorPerTick()
    ensures ticks * cfg.C % cfg.T <= cfg.T - cfg.ErrorPerTick()
  {
    var n, sub, T := cfg.CountsPerTick(), cfg.ErrorPerTick(), cfg.T;
    Constants(cfg);
    RestOfTicks(cfg, ticks);
    var m := T / sub;
    Divide(T, sub);
    Distribute(m, -1, sub);
    if ticks < m {
      AtLeast(m - 1, ticks, sub);
      AtLeast(ticks, 0, sub);
      QuotientIs(ticks * sub, T, 0, ticks * sub);
    } else {
      var p, rest := ticks * sub / T, ticks * sub % T;
      Divide(ticks * sub, T);
      Associate(p, m, sub);
      Subtract(ticks, p * m, sub);
      if ticks - p * m >= m { AtLeast(ticks - p * m, m, sub); }
      AtLeast(m - 1, ticks - p * m, sub);
    }
  }

  // Whole counts aside, ticks come to so many errors of a tick.
  lemma {:induction false} RestOfTicks(cfg: Config, ticks: nat)
    requires cfg.Valid()
    ensures ticks * cfg.C % cfg.T == ticks * cfg.ErrorPerTick() % cfg.T
  {
    var n, sub := cfg.CountsPerTick(), cfg.ErrorPerTick();
    Constants(cfg);
    Divide(ticks * sub, cfg.T);
    Associate(ticks, n, cfg.T);
    Distribute(ticks * n, ticks * sub / cfg.T, cfg.T);
    DistributeLeft(ticks, n * cfg.T, sub);
    QuotientIs(ticks * cfg.C, cfg.T, ticks * n + ticks * sub / cfg.T, ticks * sub % cfg.T);
  }

  // With sleeps of at most two ticks it is the window that keeps the tick within the margin.
  lemma {:induction false} OneTickBackIsNear(cfg: Config, w: World)
    requires cfg.Valid() && cfg.C > 0 && cfg.ErrorPerTick() > 0 && cfg.MaxSuppressed() <= 2
    requires w.phase.Asleep? && Accepted(cfg, w)
    ensures WithinMargin(cfg, w, Rewound(cfg, w.s, 1))
  {
    var n, most := cfg.CountsPerTick(), cfg.MaxSuppressed() * cfg.C;
    Constants(cfg);
    QuotientIs(cfg.C, cfg.T, n, cfg.ErrorPerTick());
    AtLeast(2, cfg.MaxSuppressed(), cfg.C);
    QuotientIsLargest(most, cfg.T, 0);
    AtLeast(cfg.MaxCounts(), w.Left(), cfg.T);
    Subtract(w.Left(), n, cfg.T);
    Distribute(n, 1, cfg.T);
    if w.Left() - n > n { AtLeast(w.Left() - n, n + 1, cfg.T); }
  }

  // An early wake-up that the window rejects: the ticks of the sleep are all given at once.
  predicate Rejected(cfg: Config, w: World, ev: Event)
    requires cfg.C > 0 && cfg.T > 0
  {
    ev.Assess? && w.StillAsleep() && w.phase.idle >= 2 && !Accepted(cfg, w)
  }

  /** Every prompt step keeps all credited ticks timely, except exactly a rejected early wake-up. */
  lemma {:induction false} NextTimely(cfg: Config, w: World, ev: Event)
    requires cfg.Valid() && cfg.C > 0
    requires Exact(cfg, w) && Timely(cfg, w) && Near(cfg, w) && Prompt(cfg, w, ev)
    ensures Timely(cfg, Next(cfg, w, ev)) <==> !Rejected(cfg, w, ev)
  {
    PromptIsTrue(cfg, w, ev);
    match ev
    case Count(counts) =>
      AtLeast(w.count + counts + 1, w.count + 1, cfg.T);
    case Interrupt =>
      InterruptTimely(cfg, w);
    case Enter(expectedIdle) =>
      SomeTicksFit(cfg);
    case Assess =>
      AssessTimely(cfg, w);
    case StepTicks =>
  }

  lemma {:induction false} InterruptTimely(cfg: Config, w: World)
    requires cfg.Valid() && cfg.C > 0
    requires Exact(cfg, w) && Timely(cfg, w) && Decided(cfg, w) == TrueVerdict(cfg, w)
    ensures Timely(cfg, Next(cfg, w, Interrupt))
  {
    Constants(cfg);
    var s := if TrueVerdict(cfg, w).Dropped? then Rebased(cfg, w.s, w.count) else w.s;
    RebasedOnSchedule(cfg, w.s, w.count);
    AfterTickOnSchedule(cfg, s);
    if Next(cfg, w, Interrupt) != w {
      AtLeast(w.count, s.ideal, cfg.T);
      Distribute(w.count, 1, cfg.T);
    }
  }

  lemma {:induction false} AssessTimely(cfg: Config, w: World)
    requires cfg.Valid() && cfg.C > 0
    requires Exact(cfg, w) && Timely(cfg, w) && w.phase.Asleep? && Truly(cfg, w, Assess)
    ensures Timely(cfg, Next(cfg, w, Assess)) <==> !Rejected(cfg, w, Assess)
  {
    if w.StillAsleep() && !Accepted(cfg, w) {
      RejectedIsEarly(cfg, w);
    } else if w.StillAsleep() && w.Left() >= 0 {
      EarlyWakeExact(cfg, w);
    } else if w.StillAsleep() {
      Constants(cfg);
      AtLeast(w.count, w.s.ideal, cfg.T);
      Distribute(w.count, 1, cfg.T);
      Distribute(w.s.k, -1, cfg.C);
    }
  }

  lemma {:induction false} RejectedIsEarly(cfg: Config, w: World)
    requires cfg.Valid() && cfg.C > 0
    requires Exact(cfg, w) && Timely(cfg, w) && w.StillAsleep() && !Accepted(cfg, w)
    ensures w.phase.idle >= 2 ==> (w.s.k - 1) * cfg.C + w.s.shift >= (w.count + 1) * cfg.T + cfg.HalfUp()
  {
    WindowAccepts(cfg, w);
    Constants(cfg);
    Distribute(w.s.k - w.phase.idle, w.phase.idle - 1, cfg.C);
    if w.phase.idle >= 2 { AtLeast(w.phase.idle - 1, 1, cfg.C); }
  }

  // ---- what each stretch does ----

  /** What an interrupt does, in every phase and for every lateness that 16 bits can show: a tick that is
      still to come is left alone; one that came less than a tick ago is counted, and the next is set up a
      tick on, to a count; a later one is counted too, and the next set up a tick on from the current count,
      unless the tick is suppressed. */
  lemma {:induction false} InterruptDoes(cfg: Config, w: World)
    requires cfg.Valid() && cfg.C > 0
    requires var n := cfg.CountsPerTick();
             if w.phase.Asleep? then n - 0x1_0000 <= w.Late() < 0x1_0000
             else -(n + 1) <= w.Late() < 0x1_0000 - 1 - n
    ensures var n, w' := cfg.CountsPerTick(), Next(cfg, w, Interrupt);
            var from := if w.count < w.s.ideal + n then w.s.ideal else w.count;
            if w.count < w.s.ideal || (w.count >= w.s.ideal + n && w.phase.Asleep?) then w' == w
            else
              && w'.kernel == w.kernel + 1 && w'.s.k == w.s.k + 1
              && from + n - 1 <= w'.s.ideal <= from + n + 1
              && w'.s.shift == w.s.shift + (from - w.s.ideal) * cfg.T
              && w'.count == w.count && w'.phase == w.phase
  {
    TwoTicksFit(cfg);
    DecisionIsTrue(cfg.CountsPerTick(), w.Late(), w.phase.Asleep?);
  }

  // So the interrupt at a sleep's planned end ends the sleep, for the code too.
  lemma {:induction false} SleepEnds(cfg: Config, w: World)
    requires cfg.Valid() && cfg.C > 0
    requires w.StillAsleep() && 0 <= w.Late() < cfg.CountsPerTick()
    ensures !Next(cfg, w, Interrupt).SeemsAsleep()
  {
    TwoTicksFit(cfg);
    InterruptDoes(cfg, w);
    SameIn16Bits(Next(cfg, w, Interrupt).s.ideal, w.phase.end);
  }

  // A sleep is planned as long as was asked for, or as the longest allowed, whichever is shorter.
  lemma {:induction false} PlannedIsLesser(cfg: Config, expectedIdle: nat)
    requires cfg.Valid() && cfg.C > 0 && expectedIdle >= 1
    ensures var idle := Planned(cfg, expectedIdle);
            && 1 <= idle <= expectedIdle && idle <= cfg.MaxSuppressed()
            && (idle == expectedIdle || idle == cfg.MaxSuppressed())
  {
    SomeTicksFit(cfg);
  }

  // ---- whole runs ----

  function Run(cfg: Config, w: World, evs: seq<Event>): World
    requires cfg.Valid() && cfg.C > 0
    decreases |evs|
  {
    if evs == [] then w else Run(cfg, Next(cfg, w, evs[0]), evs[1..])
  }

  // The idle task's stretches come in their order.
  ghost predicate Possible(cfg: Config, w: World, evs: seq<Event>)
    requires cfg.Valid() && cfg.C > 0
    decreases |evs|
  {
    evs == [] || (Enabled(w, evs[0]) && Possible(cfg, Next(cfg, w, evs[0]), evs[1..]))
  }

  // Every event comes as promptly as asked.
  ghost predicate AllPrompt(cfg: Config, w: World, evs: seq<Event>)
    requires cfg.Valid() && cfg.C > 0
    decreases |evs|
  {
    evs == [] || (Prompt(cfg, w, evs[0]) && AllPrompt(cfg, Next(cfg, w, evs[0]), evs[1..]))
  }

  // No early wake-up is rejected.
  ghost predicate AllAccepted(cfg: Config, w: World, evs: seq<Event>)
    requires cfg.Valid() && cfg.C > 0
    decreases |evs|
  {
    evs == []
    || (!Rejected(cfg, w, evs[0]) && AllAccepted(cfg, Next(cfg, w, evs[0]), evs[1..]))
  }

  // The code takes the state for what it is at every event.
  ghost predicate AllTrue(cfg: Config, w: World, evs: seq<Event>)
    requires cfg.Valid() && cfg.C > 0
    decreases |evs|
  {
    evs == [] || (Truly(cfg, w, evs[0]) && AllTrue(cfg, Next(cfg, w, evs[0]), evs[1..]))
  }

  predicate Drops(cfg: Config, w: World, ev: Event)
    requires cfg.Valid()
  {
    ev.Interrupt? && Decided(cfg, w).Dropped?
  }

  // No interrupt takes a tick for a dropped one.
  ghost predicate NoneDropped(cfg: Config, w: World, evs: seq<Event>)
    requires cfg.Valid() && cfg.C > 0
    decreases |evs|
  {
    evs == []
    || (!Drops(cfg, w, evs[0]) && NoneDropped(cfg, Next(cfg, w, evs[0]), evs[1..]))
  }

  lemma {:induction false} RunExact(cfg: Config, w: World, evs: seq<Event>)
    requires cfg.Valid() && cfg.C > 0
    requires Exact(cfg, w) && Possible(cfg, w, evs)
    ensures Exact(cfg, Run(cfg, w, evs))
    decreases |evs|
  {
    if evs == [] {
    } else {
      NextExact(cfg, w, evs[0]);
      RunExact(cfg, Next(cfg, w, evs[0]), evs[1..]);
    }
  }

  /** Over every prompt run in which no early wake-up is rejected, the 16-bit code takes every state for
      what it is, and no tick is ever credited before it was due. */
  lemma {:induction false} RunTimely(cfg: Config, w: World, evs: seq<Event>)
    requires cfg.Valid() && cfg.C > 0
    requires Exact(cfg, w) && Timely(cfg, w) && Near(cfg, w) && AllPrompt(cfg, w, evs) && AllAccepted(cfg, w, evs)
    ensures Possible(cfg, w, evs) && AllTrue(cfg, w, evs)
    ensures var after := Run(cfg, w, evs); Exact(cfg, after) && Timely(cfg, after) && Near(cfg, after)
    decreases |evs|
  {
    hide Exact, Timely, Near, Next, Rejected, Truly;
    if evs == [] {
    } else {
      PromptIsTrue(cfg, w, evs[0]);
      NextExact(cfg, w, evs[0]);
      NextTimely(cfg, w, evs[0]);
      NextNear(cfg, w, evs[0]);
      RunTimely(cfg, Next(cfg, w, evs[0]), evs[1..]);
    }
  }

  // No sleep is as long as the longest allowed.
  predicate ShortSleeps(cfg: Config, evs: seq<Event>)
    requires cfg.C > 0
  {
    forall i :: 0 <= i < |evs| && evs[i].Enter? ==> evs[i].expectedIdle < cfg.MaxSuppressed()
  }

  // It is enough that no sleep is as long as the longest allowed.
  lemma {:induction false} ShortSleepsAreAccepted(cfg: Config, w: World, evs: seq<Event>)
    requires cfg.Valid() && cfg.C > 0
    requires Exact(cfg, w) && Timely(cfg, w) && Near(cfg, w) && AllPrompt(cfg, w, evs) && ShortSleeps(cfg, evs)
    requires w.phase.Asleep? ==> w.phase.idle < cfg.MaxSuppressed()
    ensures AllAccepted(cfg, w, evs)
    decreases |evs|
  {
    hide Exact, Timely, Near;
    if evs == [] {
    } else {
      if w.StillAsleep() { WindowAccepts(cfg, w); }
      NextExact(cfg, w, evs[0]);
      NextTimely(cfg, w, evs[0]);
      NextNear(cfg, w, evs[0]);
      ShortSleepsAreAccepted(cfg, Next(cfg, w, evs[0]), evs[1..]);
    }
  }

  // The schedule shifts only when a tick is dropped; and exactly then, never back, if the code drops only
  // ticks that it missed.
  lemma {:induction false} ShiftMeansDropped(cfg: Config, w: World, evs: seq<Event>)
    requires cfg.Valid() && cfg.C > 0
    ensures NoneDropped(cfg, w, evs) ==> Run(cfg, w, evs).s.shift == w.s.shift
    ensures AllTrue(cfg, w, evs) ==>
              && Run(cfg, w, evs).s.shift >= w.s.shift
              && (Run(cfg, w, evs).s.shift == w.s.shift <==> NoneDropped(cfg, w, evs))
    decreases |evs|
  {
    if evs == [] {
    } else {
      StepShifts(cfg, w, evs[0]);
      ShiftMeansDropped(cfg, Next(cfg, w, evs[0]), evs[1..]);
    }
  }

  lemma {:induction false} StepShifts(cfg: Config, w: World, ev: Event)
    requires cfg.Valid() && cfg.C > 0
    ensures Next(cfg, w, ev).s.shift == w.s.shift <==> !Drops(cfg, w, ev)
    ensures Drops(cfg, w, ev) ==> Next(cfg, w, ev).s.shift == w.s.shift + w.Late() * cfg.T
    ensures Drops(cfg, w, ev) && Truly(cfg, w, ev) ==> Next(cfg, w, ev).s.shift > w.s.shift
  {
    if w.Late() >= 1 { AtLeast(w.Late(), 1, cfg.T); }
    if w.Late() <= -1 { AtLeast(-1, w.Late(), cfg.T); }
  }

  /** No drift: in every run from set-up without a dropped tick, whatever its interrupts, sleeps and
      early wake-ups, however late they come and whatever the code takes them for, the next tick is tick
      k, placed so that count * T + error == k * C exactly with an error of at most half a count, and the
      kernel has been given (or promised) k - 1 ticks. */
  lemma {:induction false} NoDrift(cfg: Config, evs: seq<Event>)
    requires cfg.Valid() && cfg.C > 0
    requires Possible(cfg, Start(cfg), evs) && NoneDropped(cfg, Start(cfg), evs)
    ensures var w := Run(cfg, Start(cfg), evs);
            && w.s.ideal * cfg.T + w.s.err == w.s.k * cfg.C
            && -cfg.HalfUp() <= w.s.err <= cfg.HalfUp()
            && w.kernel + w.Pending() + 1 == w.s.k
            && (cfg.T % 2 == 0 ==> forall p :: Distance(cfg, w.s, w.s.ideal) <= Distance(cfg, w.s, p))
  {
    StartInvariants(cfg);
    RunExact(cfg, Start(cfg), evs);
    ShiftMeansDropped(cfg, Start(cfg), evs);
    NearestCount(cfg, Run(cfg, Start(cfg), evs).s);
  }

  // Two runs that have reached the same tick agree on its count, up to two adjacent counts that are
  // equally near.
  lemma {:induction false} RunsAgree(cfg: Config, a: seq<Event>, b: seq<Event>)
    requires cfg.Valid() && cfg.C > 0
    requires Possible(cfg, Start(cfg), a) && NoneDropped(cfg, Start(cfg), a)
    requires Possible(cfg, Start(cfg), b) && NoneDropped(cfg, Start(cfg), b)
    requires Run(cfg, Start(cfg), a).s.k == Run(cfg, Start(cfg), b).s.k
    ensures var s, t := Run(cfg, Start(cfg), a).s, Run(cfg, Start(cfg), b).s;
            s == t || EquallyNear(cfg, s, t) || EquallyNear(cfg, t, s)
  {
    StartInvariants(cfg);
    RunExact(cfg, Start(cfg), a);
    RunExact(cfg, Start(cfg), b);
    ShiftMeansDropped(cfg, Start(cfg), a);
    ShiftMeansDropped(cfg, Start(cfg), b);
    var s, t := Run(cfg, Start(cfg), a).s, Run(cfg, Start(cfg), b).s;
    if s.ideal <= t.ideal { SameTickSameCount(cfg, s, t); } else { SameTickSameCount(cfg, t, s); }
  }

  /** Kernel time tracks the counter for ever: in every prompt run in which no early wake-up is rejected,
      whenever the idle task is awake and no tick is overdue, the kernel has exactly the ticks that
      were due, to one tick and two counts. */
  lemma {:induction false} KernelTimeTracksCounter(cfg: Config, evs: seq<Event>)
    requires cfg.Valid() && cfg.C > 0
    requires AllPrompt(cfg, Start(cfg), evs) && AllAccepted(cfg, Start(cfg), evs)
    requires var w := Run(cfg, Start(cfg), evs); w.phase.Awake? && w.Late() < 0
    ensures var w := Run(cfg, Start(cfg), evs);
            && w.kernel * cfg.C + w.s.shift < (w.count + 1) * cfg.T + cfg.HalfUp()
            && (w.kernel + 1) * cfg.C + w.s.shift >= (w.count + 1) * cfg.T - cfg.HalfUp()
  {
    StartInvariants(cfg);
    RunTimely(cfg, Start(cfg), evs);
    var w := Run(cfg, Start(cfg), evs);
    AtLeast(w.s.ideal, w.count + 1, cfg.T);
  }

  // ---- 16-bit classification ----

  function Mod16(x: int): nat {
    x % 0x1_0000
  }

  lemma {:induction false} SmallIn16Bits(a: nat)
    requires a < 0x1_0000
    ensures Mod16(a) == a
  {
  }

  lemma {:induction false} SameIn16Bits(a: int, b: int)
    requires 0 <= a - b < 0x1_0000
    ensures Mod16(a) == Mod16(b) <==> a == b
  {
  }

  // A "negative" number of counts left wraps to one outside the window.
  lemma {:induction false} WindowIn16Bits(left: int, window: nat)
    requires window < 0x1_0000 && window - 0x1_0000 < left < 0x1_0000
    ensures Mod16(left) <= window <==> 0 <= left <= window
    ensures 0 <= left ==> Mod16(left) == left
  {
    assert Mod16(left) == if left < 0 then left + 0x1_0000 else left;
  }

  lemma {:induction false} CountsBelowWindow(cfg: Config)
    requires cfg.Valid() && cfg.C > 0
    ensures 0 <= cfg.MaxCounts() < 0x1_0000
  {
    SomeTicksFit(cfg);
    MaxSuppressedFits(cfg);
    AtLeast(cfg.MaxSuppressed(), 0, cfg.C);
    QuotientIsLargest(cfg.MaxSuppressed() * cfg.C, cfg.T, 0xFFFF);
    QuotientIsLargest(cfg.MaxSuppressed() * cfg.C, cfg.T, 0);
  }

  // The interrupt's 16-bit test decides what the true lateness asks for, in exactly this window.
  lemma {:induction false} DecisionIsTrue(n: nat, late: int, suppressed: bool)
    requires 0 < n && 2 * n + 2 < 0x1_0000
    requires if suppressed then n - 0x1_0000 <= late < 0x1_0000 else -(n + 1) <= late < 0x1_0000 - 1 - n
    ensures Decide(n, Mod16(late), suppressed) == Truth(n, late, suppressed)
  {
    assert Mod16(late) == if late < 0 then late + 0x1_0000 else late;
  }

  lemma {:induction false} DecisionFailsOutside(n: nat, late: int, suppressed: bool)
    requires 0 < n && 2 * n + 2 < 0x1_0000
    requires if suppressed then late == n - 1 - 0x1_0000 || late == 0x1_0000
             else late == -(n + 2) || late == 0x1_0000 - 1 - n
    ensures Decide(n, Mod16(late), suppressed) != Truth(n, late, suppressed)
  {
    assert Mod16(late) == if late < 0 then late + 0x1_0000 else if late >= 0x1_0000 then 0 else late;
  }

  lemma {:induction false} TwoTicksFit(cfg: Config)
    requires cfg.Valid()
    ensures 2 * cfg.CountsPerTick() + 2 < 0x1_0000 && cfg.CountsPerTick() >= 4
  {
    Constants(cfg);
    if cfg.CountsPerTick() > 21846 {
      AtLeast(cfg.CountsPerTick(), 21847, cfg.T);
    }
  }
}
