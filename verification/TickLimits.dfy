/**
 Where the tick's promises stop: the exact conditions under which every tick sits on a nearest count and
 within the interrupt's margin, and reachable states that the margin and the sleep path's window do not
 cover.
 */
module TickLimits {
  import opened TickSchedule
  import opened TickWorld

  // ---- nearest counts ----

  // The timer documentation promises each tick the count closest to its due time.
  ghost predicate AlwaysNearest(cfg: Config)
    requires cfg.Valid() && cfg.C > 0
  {
    forall evs: seq<Event> | Possible(cfg, Start(cfg), evs) && NoneDropped(cfg, Start(cfg), evs) ::
      WithinHalfCount(cfg, Run(cfg, Start(cfg), evs).s)
  }

  ghost predicate Divides(d: int, a: int) {
    exists q {:trigger q * d} :: q * d == a
  }

  ghost predicate CommonFactor(cfg: Config) {
    exists d :: d > 1 && Divides(d, cfg.C) && Divides(d, cfg.T)
  }

  /** Every tick of every run without dropped ticks is on a nearest count exactly when the tick rate
      is even or shares a factor with the clock rate. */
  lemma {:induction false} AlwaysNearestIff(cfg: Config)
    requires cfg.Valid() && cfg.C > 0
    ensures AlwaysNearest(cfg) <==> cfg.T % 2 == 0 || CommonFactor(cfg)
  {
    if cfg.T % 2 == 0 || CommonFactor(cfg) {
      forall evs: seq<Event> | Possible(cfg, Start(cfg), evs) && NoneDropped(cfg, Start(cfg), evs)
        ensures WithinHalfCount(cfg, Run(cfg, Start(cfg), evs).s)
      {
        RunIsNearest(cfg, evs);
      }
    } else {
      var k := MissingTick(cfg);
      TicksOnTime(cfg, k - 1);
      ProperMeans(cfg, Start(cfg), OnTime(cfg, k - 1));
      ErrorOfMissingTick(cfg, Run(cfg, Start(cfg), OnTime(cfg, k - 1)).s);
    }
  }

  lemma {:induction false} RunIsNearest(cfg: Config, evs: seq<Event>)
    requires cfg.Valid() && cfg.C > 0
    requires cfg.T % 2 == 0 || CommonFactor(cfg)
    requires Possible(cfg, Start(cfg), evs) && NoneDropped(cfg, Start(cfg), evs)
    ensures WithinHalfCount(cfg, Run(cfg, Start(cfg), evs).s)
  {
    NoDrift(cfg, evs);
    var s := Run(cfg, Start(cfg), evs).s;
    if CommonFactor(cfg) {
      var d :| d > 1 && Divides(d, cfg.C) && Divides(d, cfg.T);
      FactorKeepsNearest(cfg, s, d);
    }
  }

  lemma {:induction false} FactorKeepsNearest(cfg: Config, s: Sched, d: int)
    requires s.ideal * cfg.T + s.err == s.k * cfg.C && -cfg.HalfUp() <= s.err <= cfg.HalfUp()
    requires d > 1 && Divides(d, cfg.C) && Divides(d, cfg.T)
    ensures WithinHalfCount(cfg, s)
  {
    hide Divides;
    DividesCombination(d, cfg.C, s.k, cfg.T, -s.ideal);
    DividesCombination(d, s.err, 2, cfg.T, 1);
    DividesCombination(d, s.err, 2, cfg.T, -1);
    NotOne(d);
  }

  lemma {:induction false} DividesCombination(d: int, a: int, m: int, b: int, n: int)
    requires Divides(d, a) && Divides(d, b)
    ensures Divides(d, a * m + b * n)
    ensures Divides(d, m * a + n * b)
  {
    var p :| p * d == a;
    var q :| q * d == b;
    Distribute(p * m, q * n, d);
    assert p * m * d == p * d * m && q * n * d == q * d * n;
    assert (p * m + q * n) * d == a * m + b * n;
  }

  lemma {:induction false} NotOne(d: int)
    requires d > 1
    ensures !Divides(d, 1) && !Divides(d, -1)
  {
    forall q ensures q * d != 1 && q * d != -1 {
      if q > 0 { AtLeast(q, 1, d); }
      if q < 0 { AtLeast(-1, q, d); }
    }
  }

  // Extended Euclid: the greatest common divisor as an integer combination.
  lemma {:induction false} Bezout(a: nat, b: nat) returns (x: int, y: int, g: nat)
    requires a > 0
    ensures x * a + y * b == g > 0
    ensures Divides(g, a) && Divides(g, b)
    decreases b
  {
    if b == 0 {
      x, y, g := 1, 0, a;
      assert 1 * a == a && 0 * a == b;
    } else {
      hide Divides;
      var x', y';
      x', y', g := Bezout(b, a % b);
      x, y := y', x' - y' * (a / b);
      Divide(a, b);
      BezoutStep(a, b, a / b, x', y');
      DividesDifference(g, a % b, b, -(a / b));
      assert a % b - -(a / b) * b == a;
    }
  }

  lemma {:induction false} BezoutStep(a: int, b: int, q: int, x: int, y: int)
    ensures y * a + (x - y * q) * b == x * b + y * (a - q * b)
  {
    Subtract(x, y * q, b);
    Associate(y, q, b);
    DistributeLeft(y, a, -(q * b));
  }

  // Without a common factor, some tick is due exactly half a count, rounded down, off a count: after
  // it when a tick is longer than its counts, before it otherwise.
  lemma {:induction false} MissingTick(cfg: Config) returns (k: int)
    requires cfg.Valid() && cfg.C > 0 && !CommonFactor(cfg)
    ensures k >= 2
    ensures exists p {:trigger p * cfg.T} ::
      k * cfg.C - p * cfg.T == if cfg.ErrorPositive() then cfg.T / 2 else -(cfg.T / 2)
  {
    var x, y, g := Bezout(cfg.C, cfg.T);
    assert g == 1;
    var half := if cfg.ErrorPositive() then cfg.T / 2 else -(cfg.T / 2);
    var p;
    k, p := SolveCongruence(cfg.C, cfg.T, x, y, 1, half, 2);
  }

  // Some k, not too small, is a given multiple of x * c + y * t past a multiple of t.
  lemma {:induction false} SolveCongruence(c: int, t: int, x: int, y: int, g: int, m: int, least: nat)
      returns (k: int, p: int)
    requires t > 1 && x * c + y * t == g
    ensures k >= least && k * c - p * t == m * g
  {
    Scaled(x * c, y * t, m);
    // (m * x) * c - (-m * y) * t == m * g; then move k into range by multiples of t
    var q := m * x / t - least;
    Divide(m * x, t);
    k, p := m * x - q * t, -m * y - q * c;
    Subtract(m * x / t, least, t);
    AtLeast(t, 1, least);
    Distribute(m * x, -(q * t), c);
    Distribute(-m * y, -(q * c), t);
    Regroup(m, x, c);
    Regroup(m, y, t);
    assert q * t * c == q * c * t;
  }

  lemma {:induction false} Scaled(a: int, b: int, m: int)
    ensures m * a + m * b == m * (a + b)
  {
    Distribute(a, b, m);
  }

  lemma {:induction false} Regroup(a: int, b: int, c: int)
    ensures a * b * c == a * (b * c) && -a * b * c == -(a * (b * c))
  {
    assert (-a * b) * c == -(a * b * c);
  }

  // The run that does nothing but tick, each time on the count chosen.
  function OnTime(cfg: Config, ticks: nat): seq<Event>
    requires cfg.Valid() && cfg.C > 0
  {
    OnTimeFrom(cfg, Start(cfg), ticks)
  }

  function OnTimeFrom(cfg: Config, w: World, ticks: nat): seq<Event>
    requires cfg.Valid() && cfg.C > 0
    decreases ticks
  {
    if ticks == 0 then []
    else
      var wait := Count(if w.Late() < 0 then -w.Late() else 0);
      var due := Next(cfg, w, wait);
      [wait, Interrupt] + OnTimeFrom(cfg, Next(cfg, due, Interrupt), ticks - 1)
  }

  // The error right after a tick is less than half a count on the side that is corrected.
  predicate AfterTickError(cfg: Config, s: Sched) {
    if cfg.T > 0 && cfg.ErrorPositive() then s.err < cfg.T / 2 else s.err > -(cfg.T / 2)
  }

  lemma {:induction false} TicksOnTime(cfg: Config, ticks: nat)
    requires cfg.Valid() && cfg.C > 0 && ticks > 0
    ensures Proper(cfg, Start(cfg), OnTime(cfg, ticks))
    ensures var w := Run(cfg, Start(cfg), OnTime(cfg, ticks));
            && OnSchedule(cfg, w.s) && w.s.shift == 0 && w.s.k == ticks + 1 && AfterTickError(cfg, w.s)
            && w.phase.Awake? && w.count + cfg.CountsPerTick() - 1 <= w.s.ideal
  {
    StartInvariants(cfg);
    Constants(cfg);
    TicksOnTimeFrom(cfg, Start(cfg), ticks);
  }

  lemma {:induction false} TicksOnTimeFrom(cfg: Config, w: World, ticks: nat)
    requires cfg.Valid() && cfg.C > 0
    requires OnSchedule(cfg, w.s) && w.s.shift == 0 && w.phase.Awake? && w.count <= w.s.ideal
    ensures Proper(cfg, w, OnTimeFrom(cfg, w, ticks))
    ensures var after := Run(cfg, w, OnTimeFrom(cfg, w, ticks));
            && OnSchedule(cfg, after.s) && after.s.shift == 0 && after.s.k == w.s.k + ticks && after.phase.Awake?
            && (ticks == 0 ==> after == w)
            && (ticks > 0 ==> AfterTickError(cfg, after.s) && after.count + cfg.CountsPerTick() - 1 <= after.s.ideal)
    decreases ticks
  {
    if ticks == 0 {
    } else {
      hide Next, ProperStep;
      var wait := Count(-w.Late());
      var due := Next(cfg, w, wait);
      var after := Next(cfg, due, Interrupt);
      OneTickOnTime(cfg, w);
      TicksOnTimeFrom(cfg, after, ticks - 1);
      var rest := OnTimeFrom(cfg, after, ticks - 1);
      var evs := OnTimeFrom(cfg, w, ticks);
      assert evs[0] == wait && evs[1..] == [Interrupt] + rest && evs[1..][0] == Interrupt && evs[1..][1..] == rest;
      assert Proper(cfg, w, evs) <==> Proper(cfg, due, evs[1..]);
    }
  }

  lemma {:induction false} OneTickOnTime(cfg: Config, w: World)
    requires cfg.Valid() && cfg.C > 0
    requires OnSchedule(cfg, w.s) && w.s.shift == 0 && w.phase.Awake? && w.count <= w.s.ideal
    ensures var wait := Count(-w.Late());
            var due := Next(cfg, w, wait);
            var after := Next(cfg, due, Interrupt);
            && ProperStep(cfg, w, wait) && ProperStep(cfg, due, Interrupt)
            && OnSchedule(cfg, after.s) && after.s.shift == 0 && after.s.k == w.s.k + 1 && after.phase.Awake?
            && AfterTickError(cfg, after.s) && after.count + cfg.CountsPerTick() - 1 <= after.s.ideal
            && after.count <= after.s.ideal
  {
    hide AfterTick;
    AfterTickOnSchedule(cfg, w.s);
    TwoTicksFit(cfg);
    NeverHalf(cfg, w.s);
    AfterTickShifts(cfg, w.s);
  }

  lemma {:induction false} AfterTickShifts(cfg: Config, s: Sched)
    requires cfg.Valid()
    ensures AfterTick(cfg, s).shift == s.shift && AfterTick(cfg, s).k == s.k + 1
  {
  }

  lemma {:induction false} NeverHalf(cfg: Config, s: Sched)
    requires cfg.Valid() && OnSchedule(cfg, s)
    ensures AfterTickError(cfg, AfterTick(cfg, s))
  {
    Constants(cfg);
  }

  lemma {:induction false} ErrorOfMissingTick(cfg: Config, s: Sched)
    requires cfg.Valid() && cfg.T % 2 == 1
    requires OnSchedule(cfg, s) && s.shift == 0 && AfterTickError(cfg, s)
    requires exists p {:trigger p * cfg.T} ::
      s.k * cfg.C - p * cfg.T == if cfg.ErrorPositive() then cfg.T / 2 else -(cfg.T / 2)
    ensures !WithinHalfCount(cfg, s)
  {
    var half := if cfg.ErrorPositive() then cfg.T / 2 else -(cfg.T / 2);
    var p :| s.k * cfg.C - p * cfg.T == half;
    Subtract(s.ideal, p, cfg.T);
    HalfAway(s.ideal - p, cfg.T, s.err, half);
  }

  lemma {:induction false} HalfAway(m: int, t: nat, err: int, target: int)
    requires t % 2 == 1 && m * t == target - err
    requires target == t / 2 || target == -(t / 2)
    requires -(t - t / 2) <= err <= t - t / 2 && err != target
    ensures 2 * err > t || -2 * err > t
  {
    if m >= 2 { AtLeast(m, 2, t); }
    if m <= -2 { AtLeast(-2, m, t); }
  }

  // ---- the interrupt's margin ----

  /** Outside a sleep the interrupt decides truthfully exactly when the next tick is at most one whole tick
      and one count away. */
  lemma {:induction false} MarginIsEnoughIff(cfg: Config, w: World)
    requires cfg.Valid() && cfg.C > 0
    requires Exact(cfg, w) && Timely(cfg, w) && !w.phase.Asleep?
    requires w.Late() < 0x1_0000 - 1 - cfg.CountsPerTick()
    ensures Decided(cfg, w) == TrueVerdict(cfg, w) <==> w.Late() >= -(cfg.CountsPerTick() + 1)
  {
    TickIsNear(cfg, w);
    TwoTicksFit(cfg);
    DecisionAtMargin(cfg.CountsPerTick(), w.Late());
  }

  lemma {:induction false} DecisionAtMargin(n: nat, late: int)
    requires 0 < n && 2 * n + 2 < 0x1_0000 && -(n + 2) <= late < 0x1_0000 - 1 - n
    ensures Decide(n, Mod16(late), false) == Truth(n, late, false) <==> late >= -(n + 1)
  {
    if late >= -(n + 1) {
      DecisionIsTrue(n, late, false);
    } else {
      DecisionFailsOutside(n, late, false);
    }
  }

  // In no proper run is a tick ever placed beyond the margin.
  ghost predicate AlwaysWithinMargin(cfg: Config)
    requires cfg.Valid() && cfg.C > 0
  {
    forall evs: seq<Event> | AllPrompt(cfg, Start(cfg), evs) && AllAccepted(cfg, Start(cfg), evs) ::
      !BeyondMargin(cfg, Run(cfg, Start(cfg), evs))
  }

  predicate BeyondMargin(cfg: Config, w: World)
    requires cfg.Valid()
  {
    !w.phase.Asleep? && w.Late() < -(cfg.CountsPerTick() + 1)
  }

  /** Which configurations never place a tick beyond the interrupt's margin. */
  lemma {:induction false} AlwaysWithinMarginIff(cfg: Config)
    requires cfg.Valid() && cfg.C > 0
    ensures AlwaysWithinMargin(cfg) <==> !MayPassMargin(cfg)
  {
    hide Run, Proper, AllPrompt, AllAccepted, BeyondMargin, HalfwayTick;
    if MayPassMargin(cfg) {
      var evs;
      if HalfwayTick(cfg) { evs := TwoSleepsPass(cfg); } else { evs := OneSleepPasses(cfg); }
      ProperMeans(cfg, Start(cfg), evs);
    } else {
      forall evs: seq<Event> | AllPrompt(cfg, Start(cfg), evs) && AllAccepted(cfg, Start(cfg), evs)
        ensures !BeyondMargin(cfg, Run(cfg, Start(cfg), evs))
      {
        RunIsWithinMargin(cfg, evs);
      }
    }
  }

  lemma {:induction false} RunIsWithinMargin(cfg: Config, evs: seq<Event>)
    requires cfg.Valid() && cfg.C > 0 && !MayPassMargin(cfg)
    requires AllPrompt(cfg, Start(cfg), evs) && AllAccepted(cfg, Start(cfg), evs)
    ensures !BeyondMargin(cfg, Run(cfg, Start(cfg), evs))
  {
    hide Run, AllPrompt, AllAccepted;
    StartInvariants(cfg);
    RunTimely(cfg, Start(cfg), evs);
    var w := Run(cfg, Start(cfg), evs);
    if !w.phase.Asleep? { TickIsNear(cfg, w); }
  }

  // Waking from one sleep at the right count is enough when the error of a tick does not divide a count:
  // the sleep's end is a little less than half a count early, and T / error ticks before it comes the tick
  // that is moved back to, placed almost half a count late.
  lemma {:induction false} OneSleepPasses(cfg: Config) returns (evs: seq<Event>)
    requires cfg.Valid() && cfg.C > 0 && cfg.ErrorPerTick() > 0
    requires cfg.T % cfg.ErrorPerTick() != 0 && cfg.MaxSuppressed() >= cfg.T / cfg.ErrorPerTick() + 2
    ensures Proper(cfg, Start(cfg), evs) && BeyondMargin(cfg, Run(cfg, Start(cfg), evs))
  {
    hide Run, Proper, BeyondMargin, OnTime, Postponed, Rewound, OnSchedule;
    var q := cfg.T / cfg.ErrorPerTick();
    AtLeastTwo(cfg);
    var k, p, v := AlmostHalf(cfg, q + 3);
    var ticks := k - q - 2;
    TicksOnTime(cfg, ticks);
    var w := Run(cfg, Start(cfg), OnTime(cfg, ticks));
    var s1 := Postponed(cfg, w.s, q + 1);
    EndsAlmostHalf(cfg, w.s, q, p, v);
    var s2 := Rewound(cfg, s1, q);
    BackToAlmostHalf(cfg, w.s, s1, q, v);
    var c := s2.ideal - cfg.CountsPerTick() - 2;
    WakeBeyond(cfg, w, q, c);
    Joined(cfg, Start(cfg), OnTime(cfg, ticks), [Enter(q + 2), Count(c - w.count), Assess]);
    evs := OnTime(cfg, ticks) + [Enter(q + 2), Count(c - w.count), Assess];
  }

  lemma {:induction false} AtLeastTwo(cfg: Config)
    requires cfg.Valid() && cfg.ErrorPerTick() > 0
    ensures cfg.T / cfg.ErrorPerTick() >= 2 && 0 <= cfg.T % cfg.ErrorPerTick() < cfg.ErrorPerTick() < cfg.T / 2
    ensures cfg.ErrorPositive()
  {
    Constants(cfg);
    Divide(cfg.T, cfg.ErrorPerTick());
    QuotientIsLargest(cfg.T, cfg.ErrorPerTick(), 2);
  }

  // Some tick is due almost half a count after a count: less by no more than what remains of a count
  // when the error of a tick is taken from it as often as it goes.
  lemma {:induction false} AlmostHalf(cfg: Config, least: nat) returns (k: int, p: int, v: int)
    requires cfg.Valid() && cfg.C > 0 && cfg.ErrorPerTick() > 0 && cfg.T % cfg.ErrorPerTick() != 0
    ensures k >= least && k * cfg.C - p * cfg.T == v
    ensures cfg.T / 2 - cfg.T % cfg.ErrorPerTick() < v <= cfg.T / 2
  {
    hide Divides;
    var x, y, g := Bezout(cfg.C, cfg.T);
    FactorOfRest(cfg, g);
    var m := cfg.T / 2 / g;
    Divide(cfg.T / 2, g);
    k, p := SolveCongruence(cfg.C, cfg.T, x, y, g, m, least);
    v := m * g;
  }

  lemma {:induction false} FactorOfRest(cfg: Config, g: nat)
    requires cfg.Valid() && cfg.ErrorPerTick() > 0 && cfg.T % cfg.ErrorPerTick() != 0
    requires g > 0 && Divides(g, cfg.C) && Divides(g, cfg.T)
    ensures g <= cfg.T % cfg.ErrorPerTick()
  {
    hide Divides;
    var n, sub := cfg.CountsPerTick(), cfg.ErrorPerTick();
    Constants(cfg);
    Divide(cfg.T, sub);
    DividesDifference(g, cfg.C, cfg.T, n);
    DividesDifference(g, cfg.T, sub, cfg.T / sub);
    DividesAtLeast(g, cfg.T % sub);
  }

  lemma {:induction false} DividesDifference(d: int, a: int, b: int, m: int)
    requires Divides(d, a) && Divides(d, b)
    ensures Divides(d, a - m * b)
  {
    var p :| p * d == a;
    var q :| q * d == b;
    Associate(m, q, d);
    Subtract(p, m * q, d);
    assert (p - m * q) * d == a - m * b;
  }

  lemma {:induction false} DividesAtLeast(d: int, a: int)
    requires d > 0 && a > 0 && Divides(d, a)
    ensures a >= d
  {
    var q :| q * d == a;
    if q >= 1 { AtLeast(q, 1, d); } else { AtLeast(0, q, d); }
  }

  // A sleep of q + 2 ticks, where q ticks come to a count less `short` of an error, ends on that tick.
  lemma {:induction false} EndsAlmostHalf(cfg: Config, s: Sched, q: nat, p: int, v: int)
    requires cfg.Valid() && cfg.C > 0 && cfg.ErrorPerTick() > 0 && cfg.T % cfg.ErrorPerTick() != 0
    requires q == cfg.T / cfg.ErrorPerTick()
    requires OnSchedule(cfg, s) && s.shift == 0 && s.err <= cfg.T / 2
    requires (s.k + q + 1) * cfg.C - p * cfg.T == v && 0 < v <= cfg.T / 2
    ensures Postponed(cfg, s, q + 1).err == v
  {
    var sub, s1 := cfg.ErrorPerTick(), Postponed(cfg, s, q + 1);
    PostponedOnSchedule(cfg, s, q + 1);
    Constants(cfg);
    Divide(cfg.T, sub);
    Distribute(q, 1, sub);
    RestOfTicks(cfg, q + 1);
    QuotientIs((q + 1) * sub, cfg.T, 1, sub - cfg.T % sub);
    Subtract(s1.ideal, p, cfg.T);
    NoMultiple(s1.ideal - p, cfg.T, v - s1.err);
  }

  // Moved back by q ticks, the tick is placed almost half a count late, a tick or more after `s`.
  lemma {:induction false} BackToAlmostHalf(cfg: Config, s: Sched, s1: Sched, q: nat, v: int)
    requires cfg.Valid() && cfg.C > 0 && cfg.ErrorPerTick() > 0 && cfg.T % cfg.ErrorPerTick() != 0
    requires q == cfg.T / cfg.ErrorPerTick() && OnSchedule(cfg, s) && s1 == Postponed(cfg, s, q + 1)
    requires s1.err == v && cfg.T / 2 - cfg.T % cfg.ErrorPerTick() < v <= cfg.T / 2
    ensures var s2 := Rewound(cfg, s1, q);
            && s2.ideal == s1.ideal - q * cfg.C / cfg.T && s2.ideal >= s.ideal + 3
            && q * cfg.C == q * cfg.C / cfg.T * cfg.T + (cfg.T - cfg.T % cfg.ErrorPerTick())
  {
    var sub, s2 := cfg.ErrorPerTick(), Rewound(cfg, s1, q);
    Constants(cfg);
    Divide(cfg.T, sub);
    RestOfTicks(cfg, q);
    QuotientIs(q * sub, cfg.T, 0, cfg.T - cfg.T % sub);
    Divide(q * cfg.C, cfg.T);
    PostponedOnSchedule(cfg, s, q + 1);
    RewoundOnSchedule(cfg, s1, q);
    Subtract(s2.ideal, s.ideal, cfg.T);
    Distribute(s.k, 1, cfg.C);
    if s2.ideal - s.ideal < 3 { AtLeast(2, s2.ideal - s.ideal, cfg.T); }
  }

  // Woken on count c, the sleep path moves the tick back by q ticks, to n + 2 counts ahead.
  lemma {:induction false} WakeBeyond(cfg: Config, w: World, q: nat, c: int)
    requires cfg.Valid() && cfg.C > 0 && cfg.ErrorPerTick() > 0 && cfg.T % cfg.ErrorPerTick() != 0
    requires q >= 1 && cfg.MaxSuppressed() >= q + 2 && w.phase.Awake?
    requires var s1 := Postponed(cfg, w.s, q + 1);
             var s2 := Rewound(cfg, s1, q);
             && s2.ideal == s1.ideal - q * cfg.C / cfg.T
             && q * cfg.C == q * cfg.C / cfg.T * cfg.T + (cfg.T - cfg.T % cfg.ErrorPerTick())
             && c == s2.ideal - cfg.CountsPerTick() - 2 >= w.count
    ensures var evs := [Enter(q + 2), Count(c - w.count), Assess];
            Proper(cfg, w, evs) && BeyondMargin(cfg, Run(cfg, w, evs))
  {
    var n, sub := cfg.CountsPerTick(), cfg.ErrorPerTick();
    var w1 := Next(cfg, w, Enter(q + 2));
    var w2 := Next(cfg, w1, Count(c - w.count));
    var counts, left := q * cfg.C / cfg.T, w2.Left();
    Constants(cfg);
    assert w1.s == Postponed(cfg, w.s, q + 1) && w2.phase == Asleep(q + 2, w2.s.ideal) && left == counts + n + 1;
    assert left * cfg.T == q * cfg.C + (cfg.C - sub + cfg.T % sub) by {
      Distribute(counts, n, cfg.T);
      Distribute(counts + n, 1, cfg.T);
    }
    Divide(cfg.T, sub);
    WokenWith(cfg, w2, q, cfg.C - sub + cfg.T % sub);
    Unfold3(cfg, w, Enter(q + 2), Count(c - w.count), Assess);
  }

  // An early wake-up with whole ticks and a part of one left is prompt and accepted.
  lemma {:induction false} WokenWith(cfg: Config, w: World, ticks: nat, part: nat)
    requires cfg.Valid() && cfg.C > 0 && w.StillAsleep() && w.Left() >= 0
    requires w.Left() * cfg.T == ticks * cfg.C + part && part < cfg.C && ticks + 1 <= cfg.MaxSuppressed()
    ensures ProperStep(cfg, w, Assess)
    ensures EarlyTicks(cfg, w) == if ticks == w.phase.idle then ticks - 1 else ticks
  {
    QuotientIs(w.Left() * cfg.T, cfg.C, ticks, part);
    Distribute(ticks, 1, cfg.C);
    AtLeast(cfg.MaxSuppressed(), ticks + 1, cfg.C);
    QuotientIsLargest(cfg.MaxSuppressed() * cfg.C, cfg.T, w.Left());
    CountsBelowWindow(cfg);
    WindowIn16Bits(w.Left(), cfg.MaxCounts());
  }

  // When some tick is due half-way between two counts, a sleep that ends on it leaves it placed on the
  // earlier count; after a second sleep of one tick more it is placed on the later one.
  lemma {:induction false} TwoSleepsPass(cfg: Config) returns (evs: seq<Event>)
    requires cfg.Valid() && cfg.C > 0 && cfg.ErrorPerTick() > 0
    requires HalfwayTick(cfg) && cfg.MaxSuppressed() >= 3
    ensures Proper(cfg, Start(cfg), evs) && BeyondMargin(cfg, Run(cfg, Start(cfg), evs))
  {
    hide Run, Proper, BeyondMargin, OnTime, OnSchedule;
    var ticks, p := LaterHalfway(cfg);
    AtLeastTwo(cfg);
    TicksOnTime(cfg, ticks);
    var w := Run(cfg, Start(cfg), OnTime(cfg, ticks));
    BeforeHalfway(cfg, w.s, p);
    var first := [Enter(2), Count(w.s.ideal - 1 - w.count), Assess];
    FirstSleep(cfg, w);
    SecondSleep(cfg, Run(cfg, w, first));
    Joined(cfg, w, first, [StepTicks, Enter(2), Assess]);
    Joined(cfg, Start(cfg), OnTime(cfg, ticks), first + [StepTicks, Enter(2), Assess]);
    evs := OnTime(cfg, ticks) + (first + [StepTicks, Enter(2), Assess]);
  }

  lemma {:induction false} LaterHalfway(cfg: Config) returns (ticks: nat, p: int)
    requires cfg.Valid() && HalfwayTick(cfg)
    ensures ticks > 0 && cfg.T % 2 == 0 && (ticks + 2) * cfg.C == p * cfg.T + cfg.T / 2
  {
    var k0 :| 0 <= k0 < cfg.T && 2 * DueOffset(cfg, k0) == cfg.T;
    ticks, p := k0 + 3 * cfg.T - 2, k0 * cfg.C / cfg.T + 3 * cfg.C;
    Divide(k0 * cfg.C, cfg.T);
    LaterBy(k0, cfg.C, k0 * cfg.C / cfg.T, cfg.T);
    Halves(cfg.T, DueOffset(cfg, k0));
  }

  lemma {:induction false} Halves(t: nat, half: nat)
    requires 2 * half == t
    ensures t % 2 == 0 && t / 2 == half
  {
  }

  lemma {:induction false} LaterBy(k: int, c: int, p: int, t: int)
    ensures (k + 3 * t) * c - (p + 3 * c) * t == k * c - p * t
  {
    Distribute(k, 3 * t, c);
    Distribute(p, 3 * c, t);
    assert 3 * t * c == 3 * c * t;
  }

  lemma {:induction false} BeforeHalfway(cfg: Config, s: Sched, p: int)
    requires cfg.Valid() && cfg.C > 0 && cfg.ErrorPerTick() > 0 && cfg.T % 2 == 0
    requires OnSchedule(cfg, s) && s.shift == 0 && s.err < cfg.T / 2
    requires (s.k + 1) * cfg.C == p * cfg.T + cfg.T / 2
    ensures s.err == cfg.T / 2 - cfg.ErrorPerTick()
  {
    var n := cfg.CountsPerTick();
    Constants(cfg);
    Distribute(s.k, 1, cfg.C);
    Subtract(p, n, cfg.T);
    Subtract(p - n, s.ideal, cfg.T);
    NoMultiple(p - n - s.ideal, cfg.T, s.err - (cfg.T / 2 - cfg.ErrorPerTick()));
  }

  lemma {:induction false} FirstSleep(cfg: Config, w: World)
    requires cfg.Valid() && cfg.C > 0 && cfg.ErrorPerTick() > 0 && cfg.T % 2 == 0 && cfg.MaxSuppressed() >= 3
    requires w.phase.Awake? && w.s.err == cfg.T / 2 - cfg.ErrorPerTick() && w.count < w.s.ideal
    ensures var evs := [Enter(2), Count(w.s.ideal - 1 - w.count), Assess];
            var after := Run(cfg, w, evs);
            && Proper(cfg, w, evs)
            && after.phase == Stepping(1) && after.s.err == cfg.T / 2 && after.Left() == cfg.CountsPerTick()
  {
    var n := cfg.CountsPerTick();
    Constants(cfg);
    QuotientIs(cfg.C, cfg.T, n, cfg.ErrorPerTick());
    var w1 := Next(cfg, w, Enter(2));
    var w2 := Next(cfg, w1, Count(w.s.ideal - 1 - w.count));
    assert w2.s == Sched(w.s.ideal + n, cfg.T / 2, w.s.k + 1, w.s.shift) && w2.phase == Asleep(2, w2.s.ideal);
    WokenWith(cfg, w2, 0, n * cfg.T);
    Unfold3(cfg, w, Enter(2), Count(w.s.ideal - 1 - w.count), Assess);
  }

  lemma {:induction false} SecondSleep(cfg: Config, w: World)
    requires cfg.Valid() && cfg.C > 0 && cfg.ErrorPerTick() > 0 && cfg.T % 2 == 0 && cfg.MaxSuppressed() >= 3
    requires w.phase == Stepping(1) && w.s.err == cfg.T / 2 && w.Left() == cfg.CountsPerTick()
    ensures var evs := [StepTicks, Enter(2), Assess];
            Proper(cfg, w, evs) && BeyondMargin(cfg, Run(cfg, w, evs))
  {
    var n, sub := cfg.CountsPerTick(), cfg.ErrorPerTick();
    Constants(cfg);
    QuotientIs(cfg.C, cfg.T, n, sub);
    var w1 := Next(cfg, w, StepTicks);
    var w2 := Next(cfg, w1, Enter(2));
    assert w2.s == Sched(w.s.ideal + n + 1, sub - cfg.T / 2, w.s.k + 1, w.s.shift) && w2.phase == Asleep(2, w2.s.ideal);
    assert w2.Left() * cfg.T == 2 * cfg.C + (cfg.T - 2 * sub) by { Distribute(2 * n, 1, cfg.T); }
    WokenWith(cfg, w2, 2, cfg.T - 2 * sub);
    hide Run, Proper, MayPassMargin;
    Unfold3(cfg, w, StepTicks, Enter(2), Assess);
  }

  // With a 16384 Hz clock and a 1000 Hz tick, one sleep interrupted at the right count leaves the next tick
  // 18 counts away, and the interrupt takes it for a tick dropped long ago: the schedule moves back.
  lemma {:induction false} FalseDropIsReachable()
    ensures var cfg := Config(16384, 1000);
            var evs := [Enter(9), Count(97), Assess];
            && cfg.Valid()
            && Proper(cfg, Start(cfg), evs)
            && var w := Run(cfg, Start(cfg), evs);
               w.Late() == -18 && Drops(cfg, w, Interrupt) && Next(cfg, w, Interrupt).s.shift == -18 * cfg.T
  {
    hide Run, Proper, Next, Drops;
    var cfg := Config(16384, 1000);
    SlowClock();
    var w := SleepLeftInside(cfg);
    TakenForDropped(cfg, w);
  }

  lemma {:induction false} SlowClock()
    ensures var cfg := Config(16384, 1000);
            cfg.Valid() && cfg.CountsPerTick() == 16 && cfg.MaxSuppressed() == 3998 && cfg.MaxCounts() == 65503
  {
  }

  lemma {:induction false} SleepLeftInside(cfg: Config) returns (w: World)
    requires cfg == Config(16384, 1000) && cfg.Valid() && cfg.CountsPerTick() == 16
    requires cfg.MaxSuppressed() == 3998 && cfg.MaxCounts() == 65503
    ensures w == World(97, Sched(115, -312, 7, 0), 0, Stepping(6))
    ensures Proper(cfg, Start(cfg), [Enter(9), Count(97), Assess])
    ensures Run(cfg, Start(cfg), [Enter(9), Count(97), Assess]) == w
  {
    hide Run, Proper;
    var w1 := Next(cfg, Start(cfg), Enter(9));
    assert w1 == World(0, Sched(147, 456, 9, 0), 0, Asleep(9, 147));
    var w2 := Next(cfg, w1, Count(97));
    assert w2 == World(97, w1.s, 0, w1.phase);
    w := Next(cfg, w2, Assess);
    assert w == World(97, Sched(115, -312, 7, 0), 0, Stepping(6));
    Unfold3(cfg, Start(cfg), Enter(9), Count(97), Assess);
  }

  lemma {:induction false} TakenForDropped(cfg: Config, w: World)
    requires cfg == Config(16384, 1000) && cfg.Valid() && cfg.CountsPerTick() == 16
    requires w == World(97, Sched(115, -312, 7, 0), 0, Stepping(6))
    ensures w.Late() == -18 && Drops(cfg, w, Interrupt) && Next(cfg, w, Interrupt).s.shift == -18 * cfg.T
  {
    assert Decided(cfg, w).Dropped?;
  }

  // ---- the sleep path's window ----

  /** With the 32768 Hz clock and 1000 Hz tick of this firmware: an early wake-up credits a tick one
      count before it comes, a maximal sleep is entered and left within that same count, and 65471
      counts are left, one more than the window accepts.  The tick is then not rescheduled, and the
      1997 ticks of the sleep are given to the kernel at once. */
  lemma {:induction false} WindowCanBeMissed()
    ensures var cfg := Config(32768, 1000);
            var evs := [Enter(20), Count(556), Assess, StepTicks, Enter(1998)];
            && cfg.Valid()
            && Proper(cfg, Start(cfg), evs)
            && var w := Run(cfg, Start(cfg), evs);
               && w.StillAsleep() && w.Left() == cfg.MaxCounts() + 1
               && Prompt(cfg, w, Assess)
               && Next(cfg, w, Assess).Pending() == 1997
               && w.kernel == 17
  {
    hide Run, Proper;
    var cfg := Config(32768, 1000);
    ConstantsHere();
    var w3 := TickCreditedEarly(cfg);
    var w4 := Next(cfg, w3, StepTicks);
    var w5 := Next(cfg, w4, Enter(1998));
    assert w5 == World(556, Sched(66028, -480, 2015, 0), 17, Asleep(1998, 66028));
    OneMoreThanAccepted(cfg, w5);
    Unfold2(cfg, w3, StepTicks, Enter(1998));
    Joined(cfg, Start(cfg), [Enter(20), Count(556), Assess], [StepTicks, Enter(1998)]);
    assert [Enter(20), Count(556), Assess] + [StepTicks, Enter(1998)]
      == [Enter(20), Count(556), Assess, StepTicks, Enter(1998)];
  }

  lemma {:induction false} OneMoreThanAccepted(cfg: Config, w: World)
    requires cfg == Config(32768, 1000) && cfg.Valid() && cfg.MaxSuppressed() == 1998 && cfg.MaxCounts() == 65470
    requires w == World(556, Sched(66028, -480, 2015, 0), 17, Asleep(1998, 66028))
    ensures w.StillAsleep() && w.Left() == cfg.MaxCounts() + 1
    ensures Prompt(cfg, w, Assess) && Next(cfg, w, Assess).Pending() == 1997
  {
  }

  lemma {:induction false} ConstantsHere()
    ensures var cfg := Config(32768, 1000);
            cfg.Valid() && cfg.CountsPerTick() == 33 && cfg.MaxSuppressed() == 1998 && cfg.MaxCounts() == 65470
  {
  }

  lemma {:induction false} TickCreditedEarly(cfg: Config) returns (w: World)
    requires cfg == Config(32768, 1000) && cfg.Valid() && cfg.CountsPerTick() == 33
    requires cfg.MaxSuppressed() == 1998 && cfg.MaxCounts() == 65470
    ensures w == World(556, Sched(590, -176, 18, 0), 0, Stepping(17))
    ensures Proper(cfg, Start(cfg), [Enter(20), Count(556), Assess])
    ensures Run(cfg, Start(cfg), [Enter(20), Count(556), Assess]) == w
  {
    hide Run, Proper;
    var w1 := Next(cfg, Start(cfg), Enter(20));
    assert w1 == World(0, Sched(655, 360, 20, 0), 0, Asleep(20, 655));
    var w2 := Next(cfg, w1, Count(556));
    assert w2 == World(556, w1.s, 0, w1.phase);
    w := Next(cfg, w2, Assess);
    assert w == World(556, Sched(590, -176, 18, 0), 0, Stepping(17));
    Unfold3(cfg, Start(cfg), Enter(20), Count(556), Assess);
  }

  // ---- the tick on the current count ----

  /** With an odd tick rate an early wake-up can put the next tick on the count that is under way: the
      counts left make up its ticks to the last, and the sleep's end was more than half a count late. */
  lemma {:induction false} TickOnCurrentCount()
    ensures var cfg := Config(21, 5);
            var evs := [Count(4), Interrupt, Enter(6), Count(4), Assess];
            && cfg.Valid()
            && Proper(cfg, Start(cfg), evs)
            && var w := Run(cfg, Start(cfg), evs);
               w.count == 8 && w.s.ideal == 8
  {
    hide Run, Proper;
    var cfg := Config(21, 5);
    assert cfg.CountsPerTick() == 4 && cfg.ErrorPerTick() == 1;
    assert cfg.MaxSuppressed() == 15601 && cfg.MaxCounts() == 65524;
    var w3 := SleepAfterLongTick(cfg);
    var w4 := Next(cfg, w3, Count(4));
    assert w4 == World(8, w3.s, 1, w3.phase);
    Unfold2(cfg, w3, Count(4), Assess);
    var evs := [Count(4), Interrupt, Enter(6), Count(4), Assess];
    assert [Count(4), Interrupt, Enter(6)] + [Count(4), Assess] == evs;
    Joined(cfg, Start(cfg), [Count(4), Interrupt, Enter(6)], [Count(4), Assess]);
  }

  lemma {:induction false} SleepAfterLongTick(cfg: Config) returns (w: World)
    requires cfg == Config(21, 5) && cfg.Valid() && cfg.CountsPerTick() == 4 && cfg.ErrorPerTick() == 1
    requires cfg.MaxSuppressed() == 15601
    ensures w == World(4, Sched(30, -3, 7, 0), 1, Asleep(6, 30))
    ensures Proper(cfg, Start(cfg), [Count(4), Interrupt, Enter(6)])
    ensures Run(cfg, Start(cfg), [Count(4), Interrupt, Enter(6)]) == w
  {
    hide Run, Proper;
    var w1 := Next(cfg, Start(cfg), Count(4));
    assert w1 == World(4, Sched(4, 1, 1, 0), 0, Awake);
    var w2 := Next(cfg, w1, Interrupt);
    assert w2 == World(4, Sched(9, -3, 2, 0), 1, Awake);
    w := Next(cfg, w2, Enter(6));
    assert w == World(4, Sched(30, -3, 7, 0), 1, Asleep(6, 30));
    Unfold3(cfg, Start(cfg), Count(4), Interrupt, Enter(6));
  }

  // ---- proper runs, event by event ----

  // Every event is prompt, no early wake-up is rejected and no tick is dropped.
  ghost predicate Proper(cfg: Config, w: World, evs: seq<Event>)
    requires cfg.Valid() && cfg.C > 0
    decreases |evs|
  {
    evs == [] || (ProperStep(cfg, w, evs[0]) && Proper(cfg, Next(cfg, w, evs[0]), evs[1..]))
  }

  ghost predicate ProperStep(cfg: Config, w: World, ev: Event)
    requires cfg.Valid() && cfg.C > 0
  {
    Prompt(cfg, w, ev) && !Rejected(cfg, w, ev) && !Drops(cfg, w, ev)
  }

  lemma {:induction false} ProperMeans(cfg: Config, w: World, evs: seq<Event>)
    requires cfg.Valid() && cfg.C > 0 && Proper(cfg, w, evs)
    ensures Possible(cfg, w, evs) && AllPrompt(cfg, w, evs) && AllAccepted(cfg, w, evs) && NoneDropped(cfg, w, evs)
    decreases |evs|
  {
    if evs == [] {
    } else {
      ProperMeans(cfg, Next(cfg, w, evs[0]), evs[1..]);
    }
  }

  lemma {:induction false} Joined(cfg: Config, w: World, a: seq<Event>, b: seq<Event>)
    requires cfg.Valid() && cfg.C > 0
    ensures Run(cfg, w, a + b) == Run(cfg, Run(cfg, w, a), b)
    ensures Proper(cfg, w, a + b) <==> Proper(cfg, w, a) && Proper(cfg, Run(cfg, w, a), b)
    decreases |a|
  {
    if a == [] {
      assert a + b == b;
    } else {
      assert (a + b)[0] == a[0] && (a + b)[1..] == a[1..] + b;
      Joined(cfg, Next(cfg, w, a[0]), a[1..], b);
    }
  }

  lemma {:induction false} Unfold2(cfg: Config, w: World, e1: Event, e2: Event)
    requires cfg.Valid() && cfg.C > 0
    ensures var w1 := Next(cfg, w, e1);
            && Run(cfg, w, [e1, e2]) == Next(cfg, w1, e2)
            && (Proper(cfg, w, [e1, e2]) <==> ProperStep(cfg, w, e1) && ProperStep(cfg, w1, e2))
  {
    hide Next, ProperStep;
    assert [e1, e2][1..] == [e2] && [e2][1..] == [];
    var w1 := Next(cfg, w, e1);
    var w2 := Next(cfg, w1, e2);
    assert Run(cfg, w, [e1, e2]) == Run(cfg, w1, [e2]) == Run(cfg, w2, []);
    assert Proper(cfg, w1, [e2]) <==> ProperStep(cfg, w1, e2) && Proper(cfg, w2, []);
  }

  lemma {:induction false} Unfold3(cfg: Config, w: World, e1: Event, e2: Event, e3: Event)
    requires cfg.Valid() && cfg.C > 0
    ensures var w1 := Next(cfg, w, e1);
            var w2 := Next(cfg, w1, e2);
            && Run(cfg, w, [e1, e2, e3]) == Next(cfg, w2, e3)
            && (Proper(cfg, w, [e1, e2, e3])
                <==> ProperStep(cfg, w, e1) && ProperStep(cfg, w1, e2) && ProperStep(cfg, w2, e3))
  {
    hide Next, ProperStep;
    Unfold2(cfg, Next(cfg, w, e1), e2, e3);
    assert [e1, e2, e3][1..] == [e2, e3];
  }
}
