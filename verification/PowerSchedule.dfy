/**
 The bridge bus schedule (src/apps/bridge/bridgePowerController.cpp) on unbounded integers: nested
 sample and subsample windows, aligned intervals, and the sleep computed at each wake-up.  Times are
 in seconds.
 */
module PowerSchedule {

  datatype Config = Config(
    interval: nat, duration: nat,
    subInterval: nat, subDuration: nat,
    alignment: nat, subsampling: bool)
  {
    // The lower bounds that the controller's constructor enforces.
    predicate Valid() {
      interval >= 6 && duration >= 6 && subInterval >= 6 && subDuration >= 6
    }

    // Alignment never moves a sample start that lies on the interval's own grid.
    predicate Aligned(start: int) {
      alignment == 0 || (interval % alignment == 0 && start % alignment == 0)
    }
  }

  /** The controller's two interval starts and the bus. */
  datatype Control = Control(sampleStart: int, subStart: int, bus: bool)

  datatype Outcome = Outcome(control: Control, sleep: nat, notified: bool)

  // ---- alignment ----

  // The least last + m * interval, m >= 1, that is not before now.
  function NextOnGrid(now: int, last: int, interval: nat): int
    requires interval > 0
    decreases now - last
  {
    if now <= last + interval then last + interval else NextOnGrid(now, last + interval, interval)
  }

  function RoundUp(x: int, alignment: nat): int {
    if alignment == 0 || x % alignment == 0 then x else x + alignment - x % alignment
  }

  // A start of 0 stands for "none yet".
  function LastStart(now: int, last: int, interval: nat): int
    requires interval > 0
  {
    if last == 0 then now - now % interval else last
  }

  // _alignNextInterval
  function AlignNext(cfg: Config, now: int, last: int): int
    requires cfg.Valid()
  {
    RoundUp(NextOnGrid(now, LastStart(now, last, cfg.interval), cfg.interval), cfg.alignment)
  }

  lemma {:induction false} Multiples(a: int, b: int, t: int)
    ensures (a + b) * t == a * t + b * t
    ensures a >= b && t >= 0 ==> a * t >= b * t
  {
    if a >= b && t >= 0 { assert (a - b) * t >= 0; }
  }

  lemma {:induction false} DivMod(a: int, d: int)
    requires d > 0
    ensures a == a / d * d + a % d && 0 <= a % d < d
  {
  }

  lemma {:induction false} RemainderAtMost(a: nat, d: int)
    requires d > 0
    ensures 0 <= a % d <= a && a % d < d
  {
    DivMod(a, d);
    var q, r := a / d, a % d;
    if q < 0 { Multiples(-1, q, d); }
    if q >= 0 { Multiples(q, 0, d); }
  }

  // Adding a whole number of periods changes the quotient and not the remainder.
  lemma {:induction false} Periods(x: int, m: int, d: int)
    requires d > 0
    ensures (x + m * d) % d == x % d && (x + m * d) / d == x / d + m
  {
    var y := x + m * d;
    DivMod(x, d);
    DivMod(y, d);
    var apart := y / d - (x / d + m);
    Multiples(y / d, -(x / d + m), d);
    Multiples(x / d, m, d);
    assert apart * d == x % d - y % d;
    if apart >= 1 { Multiples(apart, 1, d); }
    if apart <= -1 { Multiples(-1, apart, d); }
  }

  lemma {:induction false} SmallQuotient(x: int, d: int)
    requires 0 <= x < d
    ensures x / d == 0 && x % d == x
  {
  }

  /** _alignNextInterval is the first start on the grid that is not before now, rounded up to the
      alignment. */
  lemma {:induction false} NextOnGridIsLeast(now: int, last: int, interval: nat)
    requires interval > 0
    ensures NextOnGrid(now, last, interval) >= now
    ensures exists m {:trigger m * interval} :: m >= 1 && NextOnGrid(now, last, interval) == last + m * interval
    ensures forall m {:trigger m * interval} ::
      m >= 1 && last + m * interval >= now ==> NextOnGrid(now, last, interval) <= last + m * interval
    ensures now > last ==> NextOnGrid(now, last, interval) < now + interval
    ensures now <= last ==> NextOnGrid(now, last, interval) == last + interval
    decreases now - last
  {
    if now <= last + interval {
      assert NextOnGrid(now, last, interval) == last + 1 * interval;
      forall m | m >= 1 ensures m * interval >= interval { Multiples(m, 1, interval); }
    } else {
      NextOnGridIsLeast(now, last + interval, interval);
      var m :| m >= 1 && NextOnGrid(now, last + interval, interval) == last + interval + m * interval;
      Multiples(m, 1, interval);
      assert NextOnGrid(now, last, interval) == last + (m + 1) * interval;
      forall m | m >= 1 && last + m * interval >= now
        ensures NextOnGrid(now, last, interval) <= last + m * interval
      {
        Multiples(m - 1, 1, interval);
      }
    }
  }

  lemma {:induction false} RoundUpIsLeast(x: int, alignment: nat)
    ensures RoundUp(x, alignment) >= x
    ensures alignment > 0 ==> RoundUp(x, alignment) % alignment == 0 && RoundUp(x, alignment) < x + alignment
    ensures alignment > 0 ==> forall y {:trigger y % alignment} ::
      y >= x && y % alignment == 0 ==> RoundUp(x, alignment) <= y
  {
    if alignment > 0 {
      DivMod(x, alignment);
      var r := RoundUp(x, alignment);
      var q := if x % alignment == 0 then x / alignment else x / alignment + 1;
      Multiples(x / alignment, 1, alignment);
      assert r == q * alignment;
      Periods(0, q, alignment);
      forall y | y >= x && y % alignment == 0 ensures r <= y {
        DivMod(y, alignment);
        Multiples(q - 1, y / alignment, alignment);
        Multiples(y / alignment, q, alignment);
        Multiples(q, -1, alignment);
      }
    }
  }

  // The next aligned start is soon: less than an interval and an alignment away.
  lemma {:induction false} AlignNextIsNear(cfg: Config, now: int, last: int)
    requires cfg.Valid() && now >= 0
    ensures AlignNext(cfg, now, last) >= now
    ensures AlignNext(cfg, now, last) <= Max(now, last) + cfg.interval + cfg.alignment
    ensures last <= now && cfg.alignment > 0 ==> AlignNext(cfg, now, last) < now + cfg.interval + cfg.alignment
    ensures cfg.alignment > 0 ==> AlignNext(cfg, now, last) % cfg.alignment == 0
  {
    DivMod(now, cfg.interval);
    var from := LastStart(now, last, cfg.interval);
    NextOnGridIsLeast(now, from, cfg.interval);
    RoundUpIsLeast(NextOnGrid(now, from, cfg.interval), cfg.alignment);
  }

  // With an alignment that divides the interval, starts stay on the interval's grid.
  lemma {:induction false} AlignedStaysOnGrid(cfg: Config, now: int, last: int)
    requires cfg.Valid() && last > 0 && cfg.Aligned(last)
    ensures AlignNext(cfg, now, last) == NextOnGrid(now, last, cfg.interval)
    ensures cfg.Aligned(AlignNext(cfg, now, last))
    ensures AlignNext(cfg, now, last) > last
    ensures (AlignNext(cfg, now, last) - last) % cfg.interval == 0
  {
    hide NextOnGrid;
    NextOnGridIsLeast(now, last, cfg.interval);
    var m :| m >= 1 && NextOnGrid(now, last, cfg.interval) == last + m * cfg.interval;
    Multiples(m, 1, cfg.interval);
    Periods(0, m, cfg.interval);
    if cfg.alignment > 0 { MultipleOfMultiple(last, m, cfg.interval, cfg.alignment); }
  }

  lemma {:induction false} MultipleOfMultiple(a: int, m: int, b: int, d: int)
    requires d > 0 && a % d == 0 && b % d == 0
    ensures (a + m * b) % d == 0
  {
    DivMod(b, d);
    Regroup(m, b / d, d);
    Periods(a, m * (b / d), d);
  }

  lemma {:induction false} Regroup(a: int, b: int, c: int)
    ensures a * (b * c) == a * b * c
  {
  }

  // ---- one wake-up with sampling enabled ----

  function Remaining(start: int, now: int, timeout: int): nat {
    if start + timeout > now then start + timeout - now else 0
  }

  function Max(a: int, b: int): int {
    if a > b then a else b
  }

  function Min(a: int, b: int): int {
    if a < b then a else b
  }

  function Wake(cfg: Config, c: Control, now: int): Outcome
    requires cfg.Valid()
  {
    WakeWith(cfg, c, now, AlignNext(cfg, now, c.sampleStart))
  }

  // `next` is the sample start that follows if the sample is over.
  function WakeWith(cfg: Config, c: Control, now: int, next: int): Outcome {
    var left := Remaining(c.sampleStart, now, cfg.duration);
    if now < c.sampleStart then
      Outcome(c, c.sampleStart - now, false)
    else if left == 0 then
      Outcome(Control(next, next, c.bus && next <= now), Max(1, next - now), true)
    else if !cfg.subsampling then
      Outcome(c.(bus := true), left, false)
    else if now < c.subStart then
      Outcome(c, Min(left, c.subStart - now), false)
    else
      var subLeft := Remaining(c.subStart, now, cfg.subDuration);
      if subLeft > 0 then
        Outcome(c.(bus := true), subLeft, false)
      else
        var nextSub := c.subStart + cfg.subInterval;
        Outcome(c.(subStart := nextSub, bus := c.bus && nextSub <= now), Max(1, Min(left, nextSub - now)), false)
  }

  /** Where the next start lies: on the interval's grid, counted from the last start or, when there is none
      yet, from time zero, at the first point after the last start and not before now, or after now; and
      from there at the next multiple of the alignment, if there is one. */
  lemma {:induction false} AlignNextIs(cfg: Config, now: int, last: int) returns (g: int)
    requires cfg.Valid() && now >= 0
    ensures last == 0 ==> g % cfg.interval == 0 && now < g <= now + cfg.interval
    ensures last != 0 ==>
              && (g - last) % cfg.interval == 0 && g > last && g >= now
              && (g > last + cfg.interval ==> g - cfg.interval < now)
    ensures cfg.alignment == 0 ==> AlignNext(cfg, now, last) == g
    ensures cfg.alignment > 0 ==>
              var aligned := AlignNext(cfg, now, last);
              aligned % cfg.alignment == 0 && g <= aligned < g + cfg.alignment
  {
    var from := LastStart(now, last, cfg.interval);
    g := NextOnGrid(now, from, cfg.interval);
    NextOnGridIsLeast(now, from, cfg.interval);
    var m :| m >= 1 && g == from + m * cfg.interval;
    Multiples(m, 1, cfg.interval);
    Periods(0, m, cfg.interval);
    SmallQuotient(0, cfg.interval);
    if last == 0 {
      FirstOnGrid(now, cfg.interval);
    } else {
      Multiples(m - 1, 1, cfg.interval);
    }
    RoundUpIsLeast(g, cfg.alignment);
  }

  // Counting from the interval's last multiple not after now, the next point is the first one after now.
  lemma {:induction false} FirstOnGrid(now: nat, interval: nat)
    requires interval > 0
    ensures var g := NextOnGrid(now, now - now % interval, interval);
            g % interval == 0 && now < g <= now + interval
  {
    DivMod(now, interval);
    var q := now / interval;
    Multiples(q, 1, interval);
    Periods(0, q + 1, interval);
    SmallQuotient(0, interval);
  }

  /** The first start of all: with no alignment, or one that divides the interval, the first multiple of
      the interval after now. */
  lemma {:induction false} FirstStart(cfg: Config, now: int)
    requires cfg.Valid() && now >= 0 && (cfg.alignment == 0 || cfg.interval % cfg.alignment == 0)
    ensures AlignNext(cfg, now, 0) % cfg.interval == 0 && now < AlignNext(cfg, now, 0) <= now + cfg.interval
  {
    var g := AlignNextIs(cfg, now, 0);
    if cfg.alignment > 0 {
      DivMod(g, cfg.interval);
      MultipleOfMultiple(0, g / cfg.interval, cfg.interval, cfg.alignment);
      AlreadyAligned(g, AlignNext(cfg, now, 0), cfg.alignment);
    }
  }

  lemma {:induction false} AlreadyAligned(x: int, y: int, d: int)
    requires d > 0 && x % d == 0 && y % d == 0 && x <= y < x + d
    ensures x == y
  {
    DivMod(x, d);
    DivMod(y, d);
    Multiples(y / d, -(x / d), d);
    if y / d - x / d >= 1 { Multiples(y / d - x / d, 1, d); }
    if y / d - x / d <= -1 { Multiples(-1, y / d - x / d, d); }
  }

  /** What a wake-up does at any time, early or late, by when the sample and the subsample end and when the
      controller wakes again: before its sample it changes nothing; in the sample the bus is on to the
      sample's end or, with subsampling, to the subsample's; between subsamples an early wake-up changes
      nothing; and the bus goes off at an end unless the next start is past already. */
  lemma {:induction false} WakeIs(cfg: Config, c: Control, now: int)
    requires cfg.Valid() && now >= 0
    ensures var out := Wake(cfg, c, now);
            var due := now + out.sleep;
            var end, subEnd := c.sampleStart + cfg.duration, c.subStart + cfg.subDuration;
            var nextSub := c.subStart + cfg.subInterval;
            && (now < c.sampleStart ==> out.control == c && due == c.sampleStart && !out.notified)
            && (c.sampleStart <= now < end && !cfg.subsampling ==>
                  out.control == c.(bus := true) && due == end && !out.notified)
            && (c.sampleStart <= now < end && cfg.subsampling && now < c.subStart ==>
                  && out.control == c && !out.notified
                  && due <= end && due <= c.subStart && (due == end || due == c.subStart))
            && (c.sampleStart <= now < end && cfg.subsampling && c.subStart <= now < subEnd ==>
                  out.control == c.(bus := true) && due == subEnd && !out.notified)
            && (c.sampleStart <= now < end && cfg.subsampling && c.subStart <= now && subEnd <= now ==>
                  && out.control == Control(c.sampleStart, nextSub, c.bus && nextSub <= now) && !out.notified
                  && due == if nextSub <= now then now + 1 else if nextSub < end then nextSub else end)
            && (c.sampleStart <= now && end <= now ==>
                  var next := AlignNext(cfg, now, c.sampleStart);
                  && out.control == Control(next, next, c.bus && next <= now) && out.notified
                  && due == if next <= now then now + 1 else next)
  {
    hide AlignNext;
  }

  // ---- no drift ----

  // The sample start is on the grid of S, and the subsample start on the sample's own grid.
  ghost predicate OnGrid(cfg: Config, S: int, c: Control)
    requires cfg.Valid()
  {
    && c.sampleStart >= S && (c.sampleStart - S) % cfg.interval == 0
    && c.subStart >= c.sampleStart && (c.subStart - c.sampleStart) % cfg.subInterval == 0
  }

  lemma {:induction false} WakeStaysOnGrid(cfg: Config, S: int, c: Control, now: int)
    requires cfg.Valid() && S > 0 && cfg.Aligned(S) && cfg.Aligned(c.sampleStart) && OnGrid(cfg, S, c)
    ensures var c' := Wake(cfg, c, now).control;
            OnGrid(cfg, S, c') && cfg.Aligned(c'.sampleStart) && c'.sampleStart >= c.sampleStart
  {
    var out := Wake(cfg, c, now);
    if out.notified {
      NextStaysOnGrid(cfg, S, c.sampleStart, now);
      assert (out.control.subStart - out.control.sampleStart) % cfg.subInterval == 0
        by { SmallQuotient(0, cfg.subInterval); }
    } else {
      Periods(c.subStart - c.sampleStart, 1, cfg.subInterval);
    }
  }

  lemma {:induction false} NextStaysOnGrid(cfg: Config, S: int, start: int, now: int)
    requires cfg.Valid() && 0 < S <= start && cfg.Aligned(start) && (start - S) % cfg.interval == 0
    ensures AlignNext(cfg, now, start) > start && cfg.Aligned(AlignNext(cfg, now, start))
    ensures (AlignNext(cfg, now, start) - S) % cfg.interval == 0
  {
    AlignedStaysOnGrid(cfg, now, start);
    SumOfMultiples(AlignNext(cfg, now, start) - start, start - S, cfg.interval);
  }

  lemma {:induction false} SumOfMultiples(a: int, b: int, d: int)
    requires d > 0 && a % d == 0 && b % d == 0
    ensures (a + b) % d == 0
  {
    DivMod(a, d);
    Periods(b, a / d, d);
  }

  // powerControlEnable: enabling moves a sample start that is past, with its subsample start, to the
  // next aligned one.
  function SetEnabled(cfg: Config, c: Control, on: bool, now: int): Control
    requires cfg.Valid()
  {
    if on && c.sampleStart < now then
      var next := AlignNext(cfg, now, c.sampleStart);
      Control(next, next, c.bus)
    else c
  }

  datatype Event = WakeUp(now: int) | Enable(on: bool, now: int)

  // The controller over a run, once its time base is set; while it is disabled a wake-up leaves the bus
  // on and the starts alone.
  function Driven(cfg: Config, c: Control, enabled: bool, evs: seq<Event>): Control
    requires cfg.Valid()
    decreases |evs|
  {
    if evs == [] then c
    else match evs[0]
      case WakeUp(now) => Driven(cfg, if enabled then Wake(cfg, c, now).control else c.(bus := true), enabled, evs[1..])
      case Enable(on, now) => Driven(cfg, SetEnabled(cfg, c, on, now), on, evs[1..])
  }

  /** No schedule drift: whatever the wake-up times, early, late or extra, and whenever sampling is
      enabled or disabled, the sample start stays on S + m * interval and the subsample start on the
      sample's subinterval grid. */
  lemma {:induction false} NoScheduleDrift(cfg: Config, S: int, c: Control, enabled: bool, evs: seq<Event>)
    requires cfg.Valid() && S > 0 && cfg.Aligned(S) && cfg.Aligned(c.sampleStart) && OnGrid(cfg, S, c)
    ensures OnGrid(cfg, S, Driven(cfg, c, enabled, evs))
    decreases |evs|
  {
    hide OnGrid, Wake, SetEnabled;
    if evs == [] {
    } else {
      match evs[0]
      case WakeUp(now) =>
        if enabled {
          WakeStaysOnGrid(cfg, S, c, now);
          NoScheduleDrift(cfg, S, Wake(cfg, c, now).control, enabled, evs[1..]);
        } else {
          BusIsNotOnGrid(cfg, S, c, true);
          NoScheduleDrift(cfg, S, c.(bus := true), enabled, evs[1..]);
        }
      case Enable(on, now) =>
        SetEnabledStaysOnGrid(cfg, S, c, on, now);
        NoScheduleDrift(cfg, S, SetEnabled(cfg, c, on, now), on, evs[1..]);
    }
  }

  lemma {:induction false} BusIsNotOnGrid(cfg: Config, S: int, c: Control, bus: bool)
    requires cfg.Valid() && OnGrid(cfg, S, c)
    ensures OnGrid(cfg, S, c.(bus := bus))
  {
  }

  lemma {:induction false} SetEnabledStaysOnGrid(cfg: Config, S: int, c: Control, on: bool, now: int)
    requires cfg.Valid() && S > 0 && cfg.Aligned(S) && cfg.Aligned(c.sampleStart) && OnGrid(cfg, S, c)
    ensures var c' := SetEnabled(cfg, c, on, now);
            OnGrid(cfg, S, c') && cfg.Aligned(c'.sampleStart) && c'.sampleStart >= c.sampleStart
  {
    if on && c.sampleStart < now {
      NextStaysOnGrid(cfg, S, c.sampleStart, now);
      SmallQuotient(0, cfg.subInterval);
    }
  }

  /** Enabling leaves a start that is not past, and disabling leaves any; a past one moves, with its
      subsample start, to the first point of the interval's grid that is not past, with no alignment or
      one that the schedule keeps. */
  lemma {:induction false} SetEnabledIs(cfg: Config, c: Control, on: bool, now: int)
    requires cfg.Valid() && c.sampleStart > 0 && now >= 0 && cfg.Aligned(c.sampleStart)
    ensures !on || now <= c.sampleStart ==> SetEnabled(cfg, c, on, now) == c
    ensures on && c.sampleStart < now ==>
              var c' := SetEnabled(cfg, c, on, now);
              && c'.bus == c.bus && c'.subStart == c'.sampleStart
              && (c'.sampleStart - c.sampleStart) % cfg.interval == 0
              && now <= c'.sampleStart < now + cfg.interval
  {
    if on && c.sampleStart < now {
      AlignedStaysOnGrid(cfg, now, c.sampleStart);
      NextOnGridIsLeast(now, c.sampleStart, cfg.interval);
    }
  }

  // ---- extra wake-ups ----

  // The wake-up left nothing overdue: a start that it moved on lies in the future.
  predicate InTime(cfg: Config, c: Control, now: int)
    requires cfg.Valid()
  {
    var after := Wake(cfg, c, now).control;
    (after.sampleStart != c.sampleStart ==> after.sampleStart > now)
    && (after.subStart != c.subStart ==> after.subStart > now)
  }

  /** An extra wake-up during a sleep changes nothing, sends no notification and sleeps to the same
      moment, exactly when it does not fall in a subsample that outlasts its sample; or, after a wake-up
      so late that the next start is past already, when that is a subsample's, the bus is on and the
      subsample has one second left. */
  lemma {:induction false} ExtraWakeHarmlessIff(cfg: Config, c: Control, now: int, extra: int)
    requires cfg.Valid() && now >= 0
    requires now <= extra < now + Wake(cfg, c, now).sleep
    ensures var first := Wake(cfg, c, now);
            var again := Wake(cfg, first.control, extra);
            again == Outcome(first.control, now + first.sleep - extra, false)
            <==> if InTime(cfg, c, now) then extra < first.control.sampleStart + cfg.duration
                 else !first.notified && c.bus && first.control.subStart + cfg.subDuration == now + 1
  {
    AlignNextIsNear(cfg, now, c.sampleStart);
  }

  // ---- the exact waveform ----

  // The bus at time t, waking exactly when asked from a first wake-up at w on.
  function BusAt(cfg: Config, c: Control, w: int, t: int): bool
    requires cfg.Valid() && w <= t
    decreases t - w
  {
    var out := Wake(cfg, c, w);
    if t < w + out.sleep || out.sleep == 0 then out.control.bus
    else BusAt(cfg, out.control, w + out.sleep, t)
  }

  // Aggregation notifications sent from w to t.
  function NoticesUpTo(cfg: Config, c: Control, w: int, t: int): nat
    requires cfg.Valid()
    decreases t - w
  {
    if t < w then 0
    else
      var out := Wake(cfg, c, w);
      (if out.notified then 1 else 0)
      + if out.sleep == 0 then 0 else NoticesUpTo(cfg, out.control, w + out.sleep, t)
  }

  // Where the last subsample starts, as an offset in the sample, if not before y.
  function LastSub(cfg: Config, y: int): int
    requires cfg.Valid()
    decreases cfg.duration - y
  {
    if cfg.duration <= y + cfg.subInterval then y else LastSub(cfg, y + cfg.subInterval)
  }

  // The end of a sample window's activity, as an offset from its start.
  function WindowEnd(cfg: Config): int
    requires cfg.Valid()
  {
    if cfg.subsampling then Max(cfg.duration, LastSub(cfg, 0) + cfg.subDuration) else cfg.duration
  }

  // The time from one sample start to the next: the interval, or the multiple of it that the
  // window needs.
  function Period(cfg: Config): int
    requires cfg.Valid()
  {
    NextOnGrid(WindowEnd(cfg), 0, cfg.interval)
  }

  // The intended waveform at offset x of a period.
  predicate Intended(cfg: Config, x: int)
    requires cfg.Valid()
  {
    if cfg.subsampling
    then x / cfg.subInterval * cfg.subInterval < cfg.duration && x % cfg.subInterval < cfg.subDuration
    else x < cfg.duration
  }

  // Subsamples are shorter than their interval; and the bus is on when a window's end coincides with
  // the next sample start.
  predicate Separated(cfg: Config)
    requires cfg.Valid()
  {
    cfg.subsampling ==> cfg.subDuration < cfg.subInterval && SmoothEnd(cfg)
  }

  predicate SmoothEnd(cfg: Config)
    requires cfg.Valid()
  {
    WindowEnd(cfg) < Period(cfg) || LastSub(cfg, 0) + cfg.subDuration == WindowEnd(cfg)
  }

  /** The moments at which the controller wakes when it wakes exactly as asked: x seconds into a
      sample whose activity ends at `end`, with the subsample start y seconds into it.  The period
      is `period`; `first` says that no sample came before. */
  ghost predicate OnCourse(cfg: Config, end: int, period: int, first: bool, c: Control, x: int) {
    var y := c.subStart - c.sampleStart;
    if !cfg.subsampling then
      || (x == 0 && (end < period || first))
      || (x == 1 && end == period && c.bus)
      || (x == end && c.bus)
    else
      && y >= 0 && IsMultiple(y, cfg.subInterval)
      && (|| (x == y < cfg.duration && (y > 0 || end < period || first))
          || (x == 1 && y == 0 && end == period && c.bus)
          || (x == y + cfg.subDuration && y < cfg.duration && c.bus)
          || (x == cfg.duration && !c.bus && AfterLast(cfg, y)))
  }

  predicate IsMultiple(y: int, d: int) {
    d > 0 && y % d == 0
  }

  // y is the subsample start that follows the last subsample of a sample, and that subsample ended
  // within the sample.
  predicate AfterLast(cfg: Config, y: int) {
    && y - cfg.subInterval < cfg.duration <= y
    && y - cfg.subInterval >= 0
    && y - cfg.subInterval + cfg.subDuration < cfg.duration
  }

  // What the step lemmas need to know of the window's end and the period.
  ghost predicate Fits(cfg: Config, end: int, period: int) {
    && cfg.Valid()
    && 0 < cfg.duration <= end <= period
    && (!cfg.subsampling ==> end == cfg.duration)
    && (cfg.subsampling ==> cfg.subDuration < cfg.subInterval)
    && (cfg.subsampling ==> forall y {:trigger LastAt(cfg, y)} ::
         LastAt(cfg, y) ==> end == Max(cfg.duration, y + cfg.subDuration))
  }

  // A subsample starts at y and the next would start outside the sample.
  predicate LastAt(cfg: Config, y: int) {
    IsMultiple(y, cfg.subInterval) && 0 <= y < cfg.duration <= y + cfg.subInterval
  }

  // The bus is on at the window's end, or off until the next sample start.
  ghost predicate Smooth(cfg: Config, end: int, period: int) {
    cfg.subsampling && end == period ==> forall y {:trigger LastAt(cfg, y)} ::
      LastAt(cfg, y) ==> end == y + cfg.subDuration
  }

  lemma {:induction false} PeriodFacts(cfg: Config)
    requires cfg.Valid()
    ensures Period(cfg) >= WindowEnd(cfg) >= cfg.duration && Period(cfg) >= cfg.interval
    ensures Period(cfg) % cfg.interval == 0
  {
    NextOnGridIsLeast(WindowEnd(cfg), 0, cfg.interval);
    var m :| m >= 1 && Period(cfg) == 0 + m * cfg.interval;
    Multiples(m, 1, cfg.interval);
    Periods(0, m, cfg.interval);
  }

  lemma {:induction false} GridTranslates(now: int, last: int, d: int, interval: nat)
    requires interval > 0
    ensures NextOnGrid(now + d, last + d, interval) == NextOnGrid(now, last, interval) + d
    decreases now - last
  {
    if now <= last + interval {
    } else {
      GridTranslates(now, last + interval, d, interval);
    }
  }

  // The window's end is followed d the start of the next period.
  lemma {:induction false} NextStart(cfg: Config, start: int)
    requires cfg.Valid() && start > 0 && cfg.Aligned(start)
    ensures AlignNext(cfg, start + WindowEnd(cfg), start) == start + Period(cfg)
    ensures cfg.Aligned(start + Period(cfg))
  {
    AlignedStaysOnGrid(cfg, start + WindowEnd(cfg), start);
    GridTranslates(WindowEnd(cfg), 0, start, cfg.interval);
  }

  // The offset of y in its period, and the number of whole periods before it.
  function Offset(period: int, y: int): int
    decreases y
  {
    if y < period || period <= 0 then y else Offset(period, y - period)
  }

  function Whole(period: int, y: int): nat
    decreases y
  {
    if y < period || period <= 0 then 0 else 1 + Whole(period, y - period)
  }

  lemma {:induction false} OffsetIsRemainder(period: int, y: int)
    requires period > 0 && y >= 0
    ensures Offset(period, y) == y % period && Whole(period, y) == y / period
    decreases y
  {
    if y < period {
      SmallQuotient(y, period);
    } else {
      OffsetIsRemainder(period, y - period);
      Periods(y - period, 1, period);
    }
  }

  lemma {:induction false} OffsetInPeriod(period: int, a: int, u: int)
    requires period > 0 && a >= 0 && Offset(period, a) == 0 && 0 <= u < period
    ensures Offset(period, a + u) == u
    ensures Offset(period, a + period) == 0
    decreases a
  {
    if a < period {
    } else {
      OffsetInPeriod(period, a - period, u);
    }
  }

  // y is a subsample's offset: the subsample covers [y, y + subInterval).
  lemma {:induction false} OffsetInSub(cfg: Config, y: int, x: int)
    requires cfg.Valid() && y % cfg.subInterval == 0 && y <= x < y + cfg.subInterval
    ensures x % cfg.subInterval == x - y && x / cfg.subInterval * cfg.subInterval == y
  {
    DivMod(y, cfg.subInterval);
    Periods(x - y, y / cfg.subInterval, cfg.subInterval);
    SmallQuotient(x - y, cfg.subInterval);
  }

  // The last subsample is the one whose successor would start outside the sample.
  lemma {:induction false} LastSubIs(cfg: Config, from: int, y: int)
    requires cfg.Valid() && IsMultiple(from, cfg.subInterval) && IsMultiple(y, cfg.subInterval)
    requires from <= y < cfg.duration <= y + cfg.subInterval
    ensures LastSub(cfg, from) == y
    decreases cfg.duration - from
  {
    if from >= y {
    } else {
      NextMultipleAtMost(from, y, cfg.subInterval);
      LastSubIs(cfg, from + cfg.subInterval, y);
    }
  }

  lemma {:induction false} NextMultipleAtMost(a: int, b: int, d: int)
    requires IsMultiple(a, d) && IsMultiple(b, d) && a < b
    ensures a + d <= b && IsMultiple(a + d, d)
  {
    Periods(a, 1, d);
    DivMod(a, d);
    DivMod(b, d);
    Multiples(a / d, b / d, d);
    Multiples(b / d, a / d + 1, d);
    Multiples(a / d, 1, d);
  }

  lemma {:induction false} LastSubInSample(cfg: Config, from: int)
    requires cfg.Valid() && IsMultiple(from, cfg.subInterval) && 0 <= from < cfg.duration
    ensures LastAt(cfg, LastSub(cfg, from))
    decreases cfg.duration - from
  {
    if cfg.duration <= from + cfg.subInterval {
    } else {
      Periods(from, 1, cfg.subInterval);
      LastSubInSample(cfg, from + cfg.subInterval);
    }
  }

  lemma {:induction false} FitsPlan(cfg: Config)
    requires cfg.Valid() && (cfg.subsampling ==> cfg.subDuration < cfg.subInterval)
    ensures Fits(cfg, WindowEnd(cfg), Period(cfg))
    ensures Separated(cfg) ==> Smooth(cfg, WindowEnd(cfg), Period(cfg))
    ensures exists y :: LastAt(cfg, y) && LastSub(cfg, 0) == y
  {
    PeriodFacts(cfg);
    ZeroIsMultiple(cfg.subInterval);
    LastSubInSample(cfg, 0);
    assert LastAt(cfg, LastSub(cfg, 0));
    forall y {:trigger LastAt(cfg, y)} | LastAt(cfg, y)
      ensures LastSub(cfg, 0) == y
    {
      LastSubIs(cfg, 0, y);
    }
  }

  // ---- one wake-up on course ----

  /** The bus is as intended until the next wake-up, which is on course too, and a notification is
      sent exactly at the window's end. */
  ghost predicate GoodStep(cfg: Config, end: int, period: int, first: bool, c: Control, x: int) {
    var out := WakeWith(cfg, c, c.sampleStart + x, c.sampleStart + period);
    var base := if x < period then c.sampleStart else c.sampleStart + period;
    var from := c.sampleStart + x - base;
    && cfg.Valid()
    && 0 <= x <= end && (x > 0 || end < period || first)
    && out.sleep > 0 && from >= 0 && from + out.sleep <= period
    && (out.notified <==> x == end)
    && out.control.sampleStart == (if x == end then c.sampleStart + period else c.sampleStart)
    && (x < end ==> x + out.sleep <= end)
    && (x == end && end < period ==> x + out.sleep == period)
    && (x == end && end == period ==> out.sleep == 1)
    && OnCourse(cfg, end, period, first && x != end, out.control,
         c.sampleStart + x + out.sleep - out.control.sampleStart)
    && BusIntended(cfg, out.control.bus, from, from + out.sleep)
  }

  ghost predicate BusIntended(cfg: Config, bus: bool, from: int, to: int)
    requires cfg.Valid()
  {
    forall u {:trigger Intended(cfg, u)} :: from <= u < to ==> bus == Intended(cfg, u)
  }

  lemma {:induction false} OnCourseStep(cfg: Config, end: int, period: int, first: bool, c: Control, x: int)
    requires Fits(cfg, end, period) && OnCourse(cfg, end, period, first, c, x)
    requires x == end ==> Smooth(cfg, end, period)
    ensures GoodStep(cfg, end, period, first, c, x)
  {
    var y := c.subStart - c.sampleStart;
    if !cfg.subsampling {
      SampleStep(cfg, end, period, first, c, x);
    } else if x == y < cfg.duration || (x == 1 && y == 0) {
      SubStretch(cfg, y, x, y + cfg.subDuration, true);
      SubOnStep(cfg, end, period, first, c, x);
    } else if x < cfg.duration {
      NextMultiple(y, cfg.subInterval);
      SubStretch(cfg, y, x, y + cfg.subInterval, false);
      SubOffStep(cfg, end, period, first, c, x);
    } else {
      var last := if y < cfg.duration then y else y - cfg.subInterval;
      PreviousMultiple(y, cfg.subInterval);
      NextMultiple(last, cfg.subInterval);
      SubStretch(cfg, last, x, last + cfg.subInterval, false);
      BeyondSample(cfg, last + cfg.subInterval, period);
      SampleOffStep(cfg, end, period, first, c, x, last);
    }
  }

  lemma {:induction false} SampleStep(cfg: Config, end: int, period: int, first: bool, c: Control, x: int)
    requires Fits(cfg, end, period) && OnCourse(cfg, end, period, first, c, x) && !cfg.subsampling
    ensures GoodStep(cfg, end, period, first, c, x)
  {
  }

  lemma {:induction false} SubOnStep(cfg: Config, end: int, period: int, first: bool, c: Control, x: int)
    requires Fits(cfg, end, period) && OnCourse(cfg, end, period, first, c, x) && cfg.subsampling
    requires x == c.subStart - c.sampleStart < cfg.duration || (x == 1 && c.subStart == c.sampleStart)
    requires BusIntended(cfg, true, x, c.subStart - c.sampleStart + cfg.subDuration)
    ensures GoodStep(cfg, end, period, first, c, x)
  {
    NotLaterSubs(cfg, end, c.subStart - c.sampleStart);
  }

  lemma {:induction false} SubOffStep(cfg: Config, end: int, period: int, first: bool, c: Control, x: int)
    requires Fits(cfg, end, period) && OnCourse(cfg, end, period, first, c, x) && cfg.subsampling
    requires c.subStart - c.sampleStart < x < cfg.duration && x != 1
    requires IsMultiple(c.subStart - c.sampleStart + cfg.subInterval, cfg.subInterval)
    requires BusIntended(cfg, false, x, c.subStart - c.sampleStart + cfg.subInterval)
    ensures GoodStep(cfg, end, period, first, c, x)
  {
  }

  lemma {:induction false} SampleOffStep(cfg: Config, end: int, period: int, first: bool, c: Control, x: int, last: int)
    requires Fits(cfg, end, period) && OnCourse(cfg, end, period, first, c, x) && cfg.subsampling
    requires x >= cfg.duration && IsMultiple(last, cfg.subInterval) && (x == end ==> Smooth(cfg, end, period))
    requires var y := c.subStart - c.sampleStart; last == if y < cfg.duration then y else y - cfg.subInterval
    requires BusIntended(cfg, false, x, last + cfg.subInterval)
      && BusIntended(cfg, false, last + cfg.subInterval, period)
    ensures GoodStep(cfg, end, period, first, c, x)
  {
    assert LastAt(cfg, last);
    assert x == end;
    ZeroIsMultiple(cfg.subInterval);
    if end == period {
      assert c.bus;
      SubStretch(cfg, 0, 0, 1, true);
    }
  }

  lemma {:induction false} ZeroIsMultiple(d: int)
    requires d > 0
    ensures IsMultiple(0, d)
  {
  }

  // A subsample that starts in the sample ends by the window's end.
  lemma {:induction false} NotLaterSubs(cfg: Config, end: int, y: int)
    requires cfg.Valid() && cfg.subsampling && IsMultiple(y, cfg.subInterval) && 0 <= y < cfg.duration
    requires cfg.duration <= end
    requires forall y {:trigger LastAt(cfg, y)} :: LastAt(cfg, y) ==> end == Max(cfg.duration, y + cfg.subDuration)
    requires cfg.subDuration < cfg.subInterval
    ensures y + cfg.subDuration <= end
  {
    assert cfg.duration <= y + cfg.subInterval ==> LastAt(cfg, y);
  }

  lemma {:induction false} NextMultiple(y: int, d: int)
    requires d > 0 && IsMultiple(y, d)
    ensures IsMultiple(y + d, d)
  {
    Periods(y, 1, d);
  }

  lemma {:induction false} PreviousMultiple(y: int, d: int)
    requires d > 0 && IsMultiple(y, d)
    ensures IsMultiple(y - d, d)
  {
    Periods(y, -1, d);
  }

  // Within the subsample that starts at offset y, the bus is to be on for its duration.
  lemma {:induction false} SubStretch(cfg: Config, y: int, from: int, to: int, on: bool)
    requires cfg.Valid() && cfg.subsampling && IsMultiple(y, cfg.subInterval)
    requires y <= from && to <= y + cfg.subInterval && y < cfg.duration
    requires if on then to <= y + cfg.subDuration else from >= y + cfg.subDuration
    ensures BusIntended(cfg, on, from, to)
  {
    forall u | from <= u < to ensures on == Intended(cfg, u) {
      OffsetInSub(cfg, y, u);
    }
  }

  // After the last subsample's slot the bus is to be off.
  lemma {:induction false} BeyondSample(cfg: Config, from: int, to: int)
    requires cfg.Valid() && cfg.subsampling && IsMultiple(from, cfg.subInterval) && cfg.duration <= from
    ensures BusIntended(cfg, false, from, to)
  {
    forall u | from <= u < to ensures !Intended(cfg, u) {
      FloorAtLeast(from, u, cfg.subInterval);
    }
  }

  lemma {:induction false} FloorAtLeast(y: int, u: int, d: int)
    requires d > 0 && y % d == 0 && y <= u
    ensures u / d * d >= y
  {
    DivMod(y, d);
    DivMod(u, d);
    Multiples(y / d, u / d + 1, d);
    Multiples(u / d, y / d, d);
    Multiples(u / d, 1, d);
  }

  // ---- whole runs ----

  ghost predicate OnSchedule(cfg: Config, S: int, c: Control, w: int)
    requires cfg.Valid()
  {
    && 0 < S <= c.sampleStart && cfg.Aligned(c.sampleStart)
    && Offset(Period(cfg), c.sampleStart - S) == 0
    && OnCourse(cfg, WindowEnd(cfg), Period(cfg), c.sampleStart == S, c, w - c.sampleStart)
  }

  lemma {:induction false} ScheduleStep(cfg: Config, S: int, c: Control, w: int)
    requires cfg.Valid() && Separated(cfg) && OnSchedule(cfg, S, c, w)
    ensures GoodStep(cfg, WindowEnd(cfg), Period(cfg), c.sampleStart == S, c, w - c.sampleStart)
    ensures Wake(cfg, c, w) == WakeWith(cfg, c, w, c.sampleStart + Period(cfg))
    ensures OnSchedule(cfg, S, Wake(cfg, c, w).control, w + Wake(cfg, c, w).sleep)
  {
    StepOnSchedule(cfg, S, c, w);
    WakeOnSchedule(cfg, S, c, w);
    PeriodFacts(cfg);
    OffsetInPeriod(Period(cfg), c.sampleStart - S, 0);
    NextOnCourse(cfg, WindowEnd(cfg), Period(cfg), S, c, w);
    NextStart(cfg, c.sampleStart);
  }

  lemma {:induction false} StepOnSchedule(cfg: Config, S: int, c: Control, w: int)
    requires cfg.Valid() && Separated(cfg) && OnSchedule(cfg, S, c, w)
    ensures GoodStep(cfg, WindowEnd(cfg), Period(cfg), c.sampleStart == S, c, w - c.sampleStart)
  {
    FitsPlan(cfg);
    OnCourseStep(cfg, WindowEnd(cfg), Period(cfg), c.sampleStart == S, c, w - c.sampleStart);
  }

  lemma {:induction false} WakeOnSchedule(cfg: Config, S: int, c: Control, w: int)
    requires cfg.Valid() && OnSchedule(cfg, S, c, w)
    requires GoodStep(cfg, WindowEnd(cfg), Period(cfg), c.sampleStart == S, c, w - c.sampleStart)
    ensures Wake(cfg, c, w) == WakeWith(cfg, c, w, c.sampleStart + Period(cfg))
  {
    NextStart(cfg, c.sampleStart);
    SameWake(cfg, c, w, c.sampleStart + Period(cfg));
  }

  lemma {:induction false} NextOnCourse(cfg: Config, end: int, period: int, S: int, c: Control, w: int)
    requires period > 0 && c.sampleStart >= S
    requires GoodStep(cfg, end, period, c.sampleStart == S, c, w - c.sampleStart)
    ensures var out := WakeWith(cfg, c, w, c.sampleStart + period);
            && out.control.sampleStart == (if out.notified then c.sampleStart + period else c.sampleStart)
            && OnCourse(cfg, end, period, out.control.sampleStart == S, out.control,
                 w + out.sleep - out.control.sampleStart)
  {
  }

  lemma {:induction false} SameWake(cfg: Config, c: Control, w: int, next: int)
    requires cfg.Valid()
    requires WakeWith(cfg, c, w, next).notified ==> AlignNext(cfg, w, c.sampleStart) == next
    ensures Wake(cfg, c, w) == WakeWith(cfg, c, w, next)
  {
  }

  // Notifications due by y seconds after S: one at the end of each window.
  function NoticesBy(end: int, period: int, y: int): nat
    decreases y - end
  {
    if y < end || period <= 0 then 0 else 1 + NoticesBy(end, period, y - period)
  }

  lemma {:induction false} NoticesAt(end: int, period: int, a: int, x: int)
    requires 0 < end <= period && a >= 0 && Offset(period, a) == 0
    requires end - period <= x < end + period
    ensures NoticesBy(end, period, a + x) == Whole(period, a) + if x >= end then 1 else 0
    decreases a
  {
    if a < period {
    } else {
      NoticesAt(end, period, a - period, x);
    }
  }

  // Over a good step the notifications due grow by the one it sends, if any.
  lemma {:induction false} NoticesStep(end: int, period: int, a: int, x: int, length: int, u: int)
    requires 0 < end <= period && a >= 0 && Offset(period, a) == 0
    requires 0 <= x <= u < x + length
    requires x < end ==> x + length <= end && (x > 0 || end < period || a == 0)
    requires x >= end ==> x == end && x + length <= end + period
    ensures NoticesBy(end, period, a + u) == NoticesBy(end, period, a + x - 1) + if x >= end then 1 else 0
  {
    if x > 0 || end < period { NoticesAt(end, period, a, x - 1); }
    NoticesAt(end, period, a, u);
  }

  lemma {:induction false} BusFollows(cfg: Config, S: int, c: Control, w: int, t: int)
    requires cfg.Valid() && Separated(cfg) && OnSchedule(cfg, S, c, w) && w <= t
    ensures BusAt(cfg, c, w, t) == Intended(cfg, Offset(Period(cfg), t - S))
    decreases t - w
  {
    hide OnSchedule, Separated, GoodStep, WakeWith, AlignNext, Intended, Offset;
    var out := Wake(cfg, c, w);
    ScheduleStep(cfg, S, c, w);
    if t < w + out.sleep {
      LastStretch(cfg, S, c, w, t);
    } else {
      BusFollows(cfg, S, out.control, w + out.sleep, t);
    }
  }

  lemma {:induction false} NoticesFollow(cfg: Config, S: int, c: Control, w: int, t: int)
    requires cfg.Valid() && Separated(cfg) && OnSchedule(cfg, S, c, w) && w - 1 <= t
    ensures NoticesUpTo(cfg, c, w, t)
      == NoticesBy(WindowEnd(cfg), Period(cfg), t - S) - NoticesBy(WindowEnd(cfg), Period(cfg), w - 1 - S)
    decreases t - w
  {
    hide OnSchedule, Separated, GoodStep, WakeWith, AlignNext, NoticesBy;
    if w > t {
    } else {
      var out := Wake(cfg, c, w);
      ScheduleStep(cfg, S, c, w);
      if t < w + out.sleep {
        LastStretch(cfg, S, c, w, t);
        NothingYet(cfg, out.control, w + out.sleep, t);
      } else {
        NoticesFollow(cfg, S, out.control, w + out.sleep, t);
        LastStretch(cfg, S, c, w, w + out.sleep - 1);
      }
    }
  }

  lemma {:induction false} NothingYet(cfg: Config, c: Control, w: int, t: int)
    requires cfg.Valid() && t < w
    ensures NoticesUpTo(cfg, c, w, t) == 0
  {
  }

  lemma {:induction false} LastStretch(cfg: Config, S: int, c: Control, w: int, t: int)
    requires cfg.Valid() && Separated(cfg) && OnSchedule(cfg, S, c, w) && w <= t < w + Wake(cfg, c, w).sleep
    ensures Wake(cfg, c, w).control.bus == Intended(cfg, Offset(Period(cfg), t - S))
    ensures NoticesBy(WindowEnd(cfg), Period(cfg), t - S)
         == NoticesBy(WindowEnd(cfg), Period(cfg), w - 1 - S) + if Wake(cfg, c, w).notified then 1 else 0
  {
    ScheduleStep(cfg, S, c, w);
    PeriodFacts(cfg);
    StretchFollows(cfg, WindowEnd(cfg), Period(cfg), S, c, w, t);
  }

  lemma {:induction false} StretchFollows(cfg: Config, end: int, period: int, S: int, c: Control, w: int, t: int)
    requires 0 < end <= period && c.sampleStart >= S && Offset(period, c.sampleStart - S) == 0
    requires GoodStep(cfg, end, period, c.sampleStart == S, c, w - c.sampleStart)
    requires w <= t < w + WakeWith(cfg, c, w, c.sampleStart + period).sleep
    ensures var out := WakeWith(cfg, c, w, c.sampleStart + period);
            && out.control.bus == Intended(cfg, Offset(period, t - S))
            && NoticesBy(end, period, t - S) == NoticesBy(end, period, w - 1 - S) + if out.notified then 1 else 0
  {
    var a, x := c.sampleStart - S, w - c.sampleStart;
    var out := WakeWith(cfg, c, w, c.sampleStart + period);
    NoticesStep(end, period, a, x, out.sleep, t - c.sampleStart);
    if x < period {
      OffsetInPeriod(period, a, t - c.sampleStart);
    } else {
      OffsetInPeriod(period, a, 0);
      OffsetInPeriod(period, a + period, t - c.sampleStart - period);
    }
  }

  /** Exact duty cycle.  From a sample start S, waking exactly when asked, the bus is at every time t
      as intended at offset (t - S) mod period, and by time t exactly one aggregation notification
      has been sent for each window that has ended. */
  lemma {:induction false} ExactDutyCycle(cfg: Config, S: int, bus: bool, t: int)
    requires cfg.Valid() && Separated(cfg) && 0 < S <= t && cfg.Aligned(S)
    ensures var c := Control(S, S, bus);
            && Period(cfg) >= cfg.interval > 0
            && BusAt(cfg, c, S, t) == Intended(cfg, (t - S) % Period(cfg))
            && NoticesUpTo(cfg, c, S, t)
                 == (t - S) / Period(cfg) + if (t - S) % Period(cfg) >= WindowEnd(cfg) then 1 else 0
  {
    PeriodFacts(cfg);
    if cfg.subsampling { ZeroIsMultiple(cfg.subInterval); }
    BusFollows(cfg, S, Control(S, S, bus), S, t);
    NoticesFollow(cfg, S, Control(S, S, bus), S, t);
    NoticesClosed(WindowEnd(cfg), Period(cfg), t - S);
    OffsetIsRemainder(Period(cfg), t - S);
  }

  lemma {:induction false} NoticesClosed(end: int, period: int, y: int)
    requires 0 < end <= period && y >= 0
    ensures NoticesBy(end, period, y) == Whole(period, y) + if Offset(period, y) >= end then 1 else 0
    decreases y
  {
    if y < period {
    } else {
      NoticesClosed(end, period, y - period);
    }
  }

  // The usual configurations: the window ends before the next interval, so the period is the
  // interval.
  lemma {:induction false} UsualConfigurations(cfg: Config)
    requires cfg.Valid() && cfg.duration < cfg.interval
    requires cfg.subsampling ==> cfg.subDuration < cfg.subInterval && cfg.duration + cfg.subDuration <= cfg.interval
    ensures Separated(cfg) && Period(cfg) == cfg.interval
  {
    ZeroIsMultiple(cfg.subInterval);
    LastSubInSample(cfg, 0);
    PeriodFacts(cfg);
  }

  // With subsampling, "intended" is being in one of the subsamples that start within the sample.
  lemma {:induction false} IntendedMeansInSubsample(cfg: Config, x: int)
    requires cfg.Valid() && cfg.subsampling && cfg.subDuration <= cfg.subInterval && x >= 0
    ensures Intended(cfg, x) <==>
            exists j {:trigger j * cfg.subInterval} ::
              j >= 0 && j * cfg.subInterval < cfg.duration
                && j * cfg.subInterval <= x < j * cfg.subInterval + cfg.subDuration
  {
    var s, q := cfg.subInterval, x / cfg.subInterval;
    DivMod(x, s);
    if q < 0 { Multiples(-1, q, s); }
    if Intended(cfg, x) {
      assert q >= 0 && q * s <= x < q * s + cfg.subDuration;
    }
    forall j | j >= 0 && j * s < cfg.duration && j * s <= x < j * s + cfg.subDuration
      ensures Intended(cfg, x)
    {
      StartsAt(j, s);
      OffsetInSub(cfg, j * s, x);
    }
  }

  lemma {:induction false} StartsAt(j: int, d: int)
    requires d > 0
    ensures j * d % d == 0
  {
    Periods(0, j, d);
    SmallQuotient(0, d);
  }

  // ---- when a window's end coincides with the next sample start ----

  // The only other case: the bus is off at the end of the window, the next sample starts at once, and
  // the controller leaves the bus off until it wakes a second later.
  lemma {:induction false} RoughEndMissesStart(cfg: Config, S: int, bus: bool)
    requires cfg.Valid() && cfg.subsampling && cfg.subDuration < cfg.subInterval && !SmoothEnd(cfg)
    requires 0 < S && cfg.Aligned(S)
    ensures Period(cfg) > 0
    ensures !BusAt(cfg, Control(S, S, bus), S, S + Period(cfg)) && Intended(cfg, 0)
  {
    PeriodFacts(cfg);
    ZeroIsMultiple(cfg.subInterval);
    SmallQuotient(0, cfg.subInterval);
    FitsPlan(cfg);
    NextStart(cfg, S);
    forall y {:trigger LastAt(cfg, y)} | LastAt(cfg, y) ensures y + cfg.subDuration < WindowEnd(cfg) {
      LastSubIs(cfg, 0, y);
    }
    FirstWindow(cfg, WindowEnd(cfg), Control(S, S, bus), 0);
  }

  // The last subsample is over before the end of the window.
  ghost predicate Rough(cfg: Config, end: int) {
    cfg.subsampling && forall y {:trigger LastAt(cfg, y)} :: LastAt(cfg, y) ==> y + cfg.subDuration < end
  }

  lemma {:induction false} FirstWindow(cfg: Config, end: int, c: Control, x: int)
    requires Fits(cfg, end, end) && Rough(cfg, end) && OnCourse(cfg, end, end, true, c, x)
    requires AlignNext(cfg, c.sampleStart + end, c.sampleStart) == c.sampleStart + end
    requires 0 <= x <= end && (x == end ==> !c.bus)
    ensures !BusAt(cfg, c, c.sampleStart + x, c.sampleStart + end)
    decreases end - x
  {
    hide Wake, WakeWith, AlignNext, OnCourse, GoodStep, Rough, Intended, BusIntended;
    var w := c.sampleStart + x;
    if x == end {
      WindowOver(cfg, end, c);
    } else {
      OnCourseStep(cfg, end, end, true, c, x);
      BusOffAtRoughEnd(cfg, end, c, x);
      WindowNotOver(cfg, end, c, x);
      SameWake(cfg, c, w, c.sampleStart + end);
      var out := Wake(cfg, c, w);
      FirstWindow(cfg, end, out.control, x + out.sleep);
    }
  }

  lemma {:induction false} WindowOver(cfg: Config, end: int, c: Control)
    requires Fits(cfg, end, end) && !c.bus
    requires AlignNext(cfg, c.sampleStart + end, c.sampleStart) == c.sampleStart + end
    ensures !Wake(cfg, c, c.sampleStart + end).control.bus && Wake(cfg, c, c.sampleStart + end).sleep == 1
  {
    hide AlignNext;
  }

  lemma {:induction false} WindowNotOver(cfg: Config, end: int, c: Control, x: int)
    requires GoodStep(cfg, end, end, true, c, x) && x < end
    ensures var out := WakeWith(cfg, c, c.sampleStart + x, c.sampleStart + end);
            && !out.notified && out.sleep > 0 && x + out.sleep <= end && out.control.sampleStart == c.sampleStart
            && OnCourse(cfg, end, end, true, out.control, x + out.sleep)
  {
    hide WakeWith, OnCourse, BusIntended;
  }

  // Before a rough end the last subsample is over, so the bus is off.
  lemma {:induction false} BusOffAtRoughEnd(cfg: Config, end: int, c: Control, x: int)
    requires Fits(cfg, end, end) && Rough(cfg, end) && OnCourse(cfg, end, end, true, c, x) && x < end
    ensures var out := WakeWith(cfg, c, c.sampleStart + x, c.sampleStart + end);
            x + out.sleep == end ==> !out.control.bus
  {
    var y := c.subStart - c.sampleStart;
    assert cfg.duration <= y + cfg.subInterval && y < cfg.duration ==> LastAt(cfg, y);
    hide IsMultiple;
  }

  /** With subsamples shorter than their interval, the waveform is as intended at all times exactly
      when the bus is on, or the period not over, at the end of a window. */
  lemma {:induction false} IntendedIffSmooth(cfg: Config, S: int, bus: bool)
    requires cfg.Valid() && cfg.subsampling && cfg.subDuration < cfg.subInterval && 0 < S && cfg.Aligned(S)
    ensures (forall t {:trigger BusAt(cfg, Control(S, S, bus), S, t)} :: t >= S ==>
               Period(cfg) > 0 && BusAt(cfg, Control(S, S, bus), S, t) == Intended(cfg, (t - S) % Period(cfg)))
            <==> SmoothEnd(cfg)
  {
    PeriodFacts(cfg);
    if SmoothEnd(cfg) {
      forall t | t >= S
        ensures BusAt(cfg, Control(S, S, bus), S, t) == Intended(cfg, (t - S) % Period(cfg))
      {
        ExactDutyCycle(cfg, S, bus, t);
      }
    } else {
      RoughEndMissesStart(cfg, S, bus);
      Periods(0, 1, Period(cfg));
      SmallQuotient(0, Period(cfg));
      var t := S + Period(cfg);
      assert (t - S) % Period(cfg) == 0;
      assert BusAt(cfg, Control(S, S, bus), S, t) != Intended(cfg, (t - S) % Period(cfg));
    }
  }

  // ---- runs with extra wake-ups ----

  // The controller at time t, waking when asked and at any other times too, from time w on, when it is to
  // wake at `due`.
  function Woken(cfg: Config, c: Control, due: int, w: int, extra: iset<int>, t: int): Control
    requires cfg.Valid()
    decreases t - w
  {
    if t < w then c
    else if w == due || w in extra then
      var out := Wake(cfg, c, w);
      Woken(cfg, out.control, w + out.sleep, w + 1, extra, t)
    else Woken(cfg, c, due, w + 1, extra, t)
  }

  // No subsample outlasts its sample.
  predicate SubsInSample(cfg: Config)
    requires cfg.Valid()
  {
    cfg.subsampling ==> LastSub(cfg, 0) + cfg.subDuration <= cfg.duration
  }

  // Extra wake-ups during a sleep leave the controller and the time it is to wake as they were.
  lemma {:induction false} StillAsleep(cfg: Config, c: Control, now: int, extra: iset<int>, u: int, t: int)
    requires cfg.Valid() && now >= 0 && now < u <= now + Wake(cfg, c, now).sleep
    requires forall e :: u <= e < now + Wake(cfg, c, now).sleep && e in extra && e <= t ==>
               InTime(cfg, c, now) && e < Wake(cfg, c, now).control.sampleStart + cfg.duration
    ensures var out := Wake(cfg, c, now);
            Woken(cfg, out.control, now + out.sleep, u, extra, t)
            == if t < now + out.sleep then out.control
              else Woken(cfg, out.control, now + out.sleep, now + out.sleep, extra, t)
    decreases now + Wake(cfg, c, now).sleep - u
  {
    hide Wake, InTime;
    var out := Wake(cfg, c, now);
    if u < now + out.sleep && u <= t {
      if u in extra { ExtraWakeHarmlessIff(cfg, c, now, u); }
      StillAsleep(cfg, c, now, extra, u + 1, t);
    }
  }

  // A wake-up on course moves a start on only to a later time.
  lemma {:induction false} OnCourseInTime(cfg: Config, end: int, period: int, first: bool, c: Control, x: int)
    requires Fits(cfg, end, period) && OnCourse(cfg, end, period, first, c, x) && x < end
    requires GoodStep(cfg, end, period, first, c, x)
    ensures var after := WakeWith(cfg, c, c.sampleStart + x, c.sampleStart + period).control;
            after.sampleStart == c.sampleStart && (after.subStart != c.subStart ==> after.subStart > c.sampleStart + x)
  {
    hide BusIntended;
  }

  lemma {:induction false} ScheduleInTime(cfg: Config, S: int, c: Control, w: int)
    requires cfg.Valid() && Separated(cfg) && SubsInSample(cfg) && OnSchedule(cfg, S, c, w)
    ensures var out := Wake(cfg, c, w);
            && 0 <= w && out.sleep > 0
            && (out.sleep > 1 ==> InTime(cfg, c, w) && w + out.sleep <= out.control.sampleStart + cfg.duration)
  {
    hide InTime, GoodStep, Wake;
    ScheduleStep(cfg, S, c, w);
    FitsPlan(cfg);
    if w - c.sampleStart < WindowEnd(cfg) {
      OnCourseInTime(cfg, WindowEnd(cfg), Period(cfg), c.sampleStart == S, c, w - c.sampleStart);
      InTimeBeforeEnd(cfg, WindowEnd(cfg), Period(cfg), c.sampleStart == S, c, w);
    } else {
      InTimeAtEnd(cfg, WindowEnd(cfg), Period(cfg), c.sampleStart == S, c, w);
    }
  }

  lemma {:induction false} InTimeBeforeEnd(cfg: Config, end: int, period: int, first: bool, c: Control, w: int)
    requires cfg.Valid() && end == cfg.duration && w < c.sampleStart + end && 0 <= c.sampleStart
    requires GoodStep(cfg, end, period, first, c, w - c.sampleStart)
    requires Wake(cfg, c, w) == WakeWith(cfg, c, w, c.sampleStart + period)
    requires var after := Wake(cfg, c, w).control;
             after.sampleStart == c.sampleStart && (after.subStart != c.subStart ==> after.subStart > w)
    ensures var out := Wake(cfg, c, w);
            0 <= w && out.sleep > 0 && InTime(cfg, c, w) && w + out.sleep <= out.control.sampleStart + cfg.duration
  {
    hide WakeWith, Wake, OnCourse, BusIntended;
  }

  lemma {:induction false} InTimeAtEnd(cfg: Config, end: int, period: int, first: bool, c: Control, w: int)
    requires cfg.Valid() && end == cfg.duration && w >= c.sampleStart + end && 0 <= c.sampleStart
    requires GoodStep(cfg, end, period, first, c, w - c.sampleStart)
    requires Wake(cfg, c, w) == WakeWith(cfg, c, w, c.sampleStart + period)
    ensures var out := Wake(cfg, c, w);
            && 0 <= w && out.sleep > 0
            && (out.sleep > 1 ==> InTime(cfg, c, w) && w + out.sleep <= out.control.sampleStart + cfg.duration)
  {
    hide Wake, OnCourse, BusIntended;
    assert WakeWith(cfg, c, w, c.sampleStart + period).notified;
  }

  lemma {:induction false} WokenFollows(cfg: Config, S: int, c: Control, w: int, extra: iset<int>, t: int)
    requires cfg.Valid() && Separated(cfg) && SubsInSample(cfg) && OnSchedule(cfg, S, c, w) && w <= t
    ensures Woken(cfg, c, w, w, extra, t).bus == Intended(cfg, Offset(Period(cfg), t - S))
    decreases t - w
  {
    hide OnSchedule, Separated, SubsInSample, GoodStep, Wake, InTime, Intended, Offset;
    var out := Wake(cfg, c, w);
    ScheduleStep(cfg, S, c, w);
    ScheduleInTime(cfg, S, c, w);
    StillAsleep(cfg, c, w, extra, w + 1, t);
    if t < w + out.sleep {
      LastStretch(cfg, S, c, w, t);
    } else {
      WokenFollows(cfg, S, out.control, w + out.sleep, extra, t);
    }
  }

  /** When no subsample outlasts its sample, the bus is as intended at every time, whatever wake-ups come
      besides those asked for. */
  lemma {:induction false} ExtraWakesKeepWaveform(cfg: Config, S: int, bus: bool, extra: iset<int>, t: int)
    requires cfg.Valid() && Separated(cfg) && SubsInSample(cfg) && 0 < S <= t && cfg.Aligned(S)
    ensures Period(cfg) > 0
    ensures Woken(cfg, Control(S, S, bus), S, S, extra, t).bus == Intended(cfg, (t - S) % Period(cfg))
  {
    PeriodFacts(cfg);
    if cfg.subsampling { ZeroIsMultiple(cfg.subInterval); }
    WokenFollows(cfg, S, Control(S, S, bus), S, extra, t);
    OffsetIsRemainder(Period(cfg), t - S);
  }

  // An extra wake-up after a sample, in a subsample that outlasts it, finds the bus on.
  lemma {:induction false} UpToExtra(cfg: Config, S: int, c: Control, w: int, e: int, t: int)
      returns (before: Control, due: int)
    requires cfg.Valid() && Separated(cfg) && OnSchedule(cfg, S, c, w) && c.sampleStart == S && w <= e <= t
    requires cfg.duration <= e - S < WindowEnd(cfg)
    ensures Woken(cfg, c, w, w, iset{e}, t) == Woken(cfg, before, due, e, iset{e}, t)
    ensures before.sampleStart == S && before.bus == Intended(cfg, Offset(Period(cfg), e - S)) && e < due
    decreases e - w
  {
    hide OnSchedule, Separated, GoodStep, Wake, Intended, Offset;
    var out := Wake(cfg, c, w);
    ScheduleStep(cfg, S, c, w);
    InTheWindow(cfg, S, c, w, e);
    if e < w + out.sleep {
      before, due := out.control, w + out.sleep;
      LastStretch(cfg, S, c, w, e);
      NoWakeBefore(cfg, before, due, w + 1, e, t);
    } else {
      NoWakeBefore(cfg, out.control, w + out.sleep, w + 1, e, t);
      before, due := UpToExtra(cfg, S, out.control, w + out.sleep, e, t);
    }
  }

  lemma {:induction false} InTheWindow(cfg: Config, S: int, c: Control, w: int, e: int)
    requires cfg.Valid() && Separated(cfg) && OnSchedule(cfg, S, c, w) && c.sampleStart == S && w <= e
    requires cfg.duration <= e - S < WindowEnd(cfg)
    requires GoodStep(cfg, WindowEnd(cfg), Period(cfg), true, c, w - S)
    requires Wake(cfg, c, w) == WakeWith(cfg, c, w, c.sampleStart + Period(cfg))
    ensures w < e && Wake(cfg, c, w).control.sampleStart == S && Wake(cfg, c, w).sleep > 0
  {
    FitsPlan(cfg);
    hide WakeWith, BusIntended;
    var y := c.subStart - S;
    var last :| LastAt(cfg, last);
    assert IsMultiple(y, cfg.subInterval) && 0 <= y < cfg.duration <= y + cfg.subInterval ==> LastAt(cfg, y);
  }

  lemma {:induction false} NoWakeBefore(cfg: Config, c: Control, due: int, u: int, e: int, t: int)
    requires cfg.Valid() && u <= e <= t && u <= due
    ensures Woken(cfg, c, due, u, iset{e}, t)
         == if e < due then Woken(cfg, c, due, e, iset{e}, t) else Woken(cfg, c, due, due, iset{e}, t)
    decreases e - u
  {
    if u < e && u < due { NoWakeBefore(cfg, c, due, u + 1, e, t); }
  }

  // When the extra wake-up comes at e, the next start is one of the interval's grid, e itself if it is one.
  lemma {:induction false} StartAfter(cfg: Config, S: int, e: int)
    requires cfg.Valid() && 0 < S <= e && cfg.Aligned(S)
    ensures AlignNext(cfg, e, S) >= e
    ensures AlignNext(cfg, e, S) == e ==> (e - S) % cfg.interval == 0
  {
    hide NextOnGrid;
    AlignedStaysOnGrid(cfg, e, S);
    NextOnGridIsLeast(e, S, cfg.interval);
  }

  // A subsample that outlasts its sample is intended to the end of the window.
  lemma {:induction false} LastSubIntended(cfg: Config, x: int)
    requires cfg.Valid() && Separated(cfg) && !SubsInSample(cfg) && cfg.duration <= x <= WindowEnd(cfg)
    ensures Intended(cfg, x) <==> x < WindowEnd(cfg)
  {
    FitsPlan(cfg);
    ZeroIsMultiple(cfg.subInterval);
    LastSubInSample(cfg, 0);
    var last := LastSub(cfg, 0);
    OffsetInSub(cfg, last, x);
  }

  /** Otherwise one extra wake-up, after a sample and in its last subsample, is enough to make the bus
      wrong. */
  lemma {:induction false} ExtraWakeBreaksWaveform(cfg: Config, S: int, bus: bool) returns (e: int, t: int)
    requires cfg.Valid() && Separated(cfg) && !SubsInSample(cfg) && 0 < S && cfg.Aligned(S)
    ensures t >= S && Period(cfg) > 0
    ensures Woken(cfg, Control(S, S, bus), S, S, iset{e}, t).bus != Intended(cfg, (t - S) % Period(cfg))
  {
    var d, end, c := cfg.duration, WindowEnd(cfg), Control(S, S, bus);
    PeriodFacts(cfg);
    ZeroIsMultiple(cfg.subInterval);
    e := S + if d % cfg.interval == 0 && d + 1 < end then d + 1 else d;
    StartAfter(cfg, S, e);
    LastSubIntended(cfg, e - S);
    SmallQuotient(e - S, Period(cfg));
    OneMoreThanMultiple(d, cfg.interval);
    if AlignNext(cfg, e, S) > e {
      t := e;
      var before, due := UpToExtra(cfg, S, c, S, e, t);
      TurnedOff(cfg, before, due, S, e);
    } else {
      t := e + 1;
      var before, due := UpToExtra(cfg, S, c, S, e, t);
      LastSubIntended(cfg, t - S);
      EndBeforePeriod(cfg);
      SmallQuotient(t - S, Period(cfg));
      StartedAgain(cfg, before, due, S, e);
    }
  }

  lemma {:induction false} OneMoreThanMultiple(a: int, d: int)
    requires d >= 6
    ensures a % d == 0 ==> (a + 1) % d != 0
  {
    DivMod(a, d);
    Periods(1, a / d, d);
    SmallQuotient(1, d);
  }

  // A window one second longer than its sample, a multiple of the interval, is over before the period.
  lemma {:induction false} EndBeforePeriod(cfg: Config)
    requires cfg.Valid() && cfg.duration % cfg.interval == 0 && WindowEnd(cfg) == cfg.duration + 1
    ensures WindowEnd(cfg) < Period(cfg)
  {
    PeriodFacts(cfg);
    OneMoreThanMultiple(cfg.duration, cfg.interval);
  }

  lemma {:induction false} TurnedOff(cfg: Config, c: Control, due: int, S: int, e: int)
    requires cfg.Valid() && c.sampleStart == S && S + cfg.duration <= e && AlignNext(cfg, e, S) > e
    ensures !Woken(cfg, c, due, e, iset{e}, e).bus
  {
    hide AlignNext;
    var out := Wake(cfg, c, e);
    assert Woken(cfg, c, due, e, iset{e}, e) == Woken(cfg, out.control, e + out.sleep, e + 1, iset{e}, e);
  }

  lemma {:induction false} StartedAgain(cfg: Config, c: Control, due: int, S: int, e: int)
    requires cfg.Valid() && cfg.subsampling && c.sampleStart == S && c.bus && S + cfg.duration <= e
    requires AlignNext(cfg, e, S) == e
    ensures Woken(cfg, c, due, e, iset{e}, e + 1).bus
  {
    hide AlignNext;
    var out := Wake(cfg, c, e);
    assert out.control == Control(e, e, true) && out.sleep == 1;
    assert Woken(cfg, c, due, e, iset{e}, e + 1) == Woken(cfg, out.control, e + 1, e + 1, iset{e}, e + 1);
    var again := Wake(cfg, out.control, e + 1);
    assert Woken(cfg, out.control, e + 1, e + 1, iset{e}, e + 1)
        == Woken(cfg, again.control, e + 1 + again.sleep, e + 2, iset{e}, e + 1);
  }

  // The bus is as intended at time t of a run with these extra wake-ups.
  ghost predicate WaveformHolds(cfg: Config, S: int, bus: bool, extra: iset<int>, t: int)
    requires cfg.Valid()
  {
    Period(cfg) > 0 && Woken(cfg, Control(S, S, bus), S, S, extra, t).bus == Intended(cfg, (t - S) % Period(cfg))
  }

  /** So the waveform survives all extra wake-ups exactly when no subsample outlasts its sample. */
  lemma {:induction false} AnyWakesIff(cfg: Config, S: int, bus: bool)
    requires cfg.Valid() && Separated(cfg) && 0 < S && cfg.Aligned(S)
    ensures (forall extra: iset<int>, t :: t >= S ==> WaveformHolds(cfg, S, bus, extra, t)) <==> SubsInSample(cfg)
  {
    if SubsInSample(cfg) {
      forall extra: iset<int>, t | t >= S ensures WaveformHolds(cfg, S, bus, extra, t) {
        ExtraWakesKeepWaveform(cfg, S, bus, extra, t);
      }
    } else {
      var e, t := ExtraWakeBreaksWaveform(cfg, S, bus);
      assert !WaveformHolds(cfg, S, bus, iset{e}, t);
    }
  }

  // ---- both failures on concrete inputs ----

  // A subsample from 8 to 14 seconds of a sample of 10: woken at 10, the controller turns the bus off.
  lemma {:induction false} ExtraWakeCutsSubsample()
    ensures var cfg, c := Config(60, 10, 8, 6, 0, true), Control(100, 108, false);
            && cfg.Valid() && Separated(cfg) && !SubsInSample(cfg)
            && var first := Wake(cfg, c, 108);
               && first.control.bus && first.sleep == 6
               && !Wake(cfg, first.control, 110).control.bus && Intended(cfg, 10)
  {
    var cfg, c := Config(60, 10, 8, 6, 0, true), Control(100, 108, false);
    assert LastSub(cfg, 8) == 8 && LastSub(cfg, 0) == 8 && WindowEnd(cfg) == 14 && Period(cfg) == 60;
    var first := Wake(cfg, c, 108);
    assert first == Outcome(Control(100, 108, true), 6, false);
    AlignNextIsNear(cfg, 110, 100);
    assert AlignNext(cfg, 110, 100) == 160;
  }

  // Samples of 12 seconds, one after the other, each with its subsample over after 6: the bus is off when
  // the second one starts.
  lemma {:induction false} SecondSampleStartsOff(bus: bool)
    ensures var cfg := Config(6, 12, 12, 6, 0, true);
            && cfg.Valid() && Period(cfg) == WindowEnd(cfg) == 12 && !SmoothEnd(cfg)
            && !BusAt(cfg, Control(6, 6, bus), 6, 18) && Intended(cfg, 0)
  {
    var cfg := Config(6, 12, 12, 6, 0, true);
    assert LastSub(cfg, 0) == 0 && WindowEnd(cfg) == 12;
    assert NextOnGrid(12, 6, 6) == 12 && NextOnGrid(12, 0, 6) == 12;
    RoughEndMissesStart(cfg, 6, bus);
  }
}
