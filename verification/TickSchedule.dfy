/**
 The arithmetic of the no-drift tick (src/lib/common/lptimTick_u5.c), on unbounded integers.

 A timer counts at C Hz and must produce an operating-system tick at T Hz.  A "count" is divided
 into T "subcounts", so tick k is ideally due at subcount k * C.  A schedule remembers on which
 count the next tick is placed and how many subcounts that count is early or late.
 */
module TickSchedule {

  datatype Config = Config(C: nat, T: nat) {

    // What the set-up code asserts, and what keeps its 32-bit products from wrapping.
    predicate Valid() {
      && 2 <= T <= 0xFFFF
      && CountsPerTick() >= 4
      && ErrorPerTick() != T / 2
      && 3 * C <= 0x1_0000 * T
    }

    // ulTimerCountsForOneTick
    function CountsPerTick(): nat
      requires T > 0
    {
      (C + T / 2) / T
    }

    // lSubcountErrorPerTick
    function ErrorPerTick(): int
      requires T > 0
    {
      C - CountsPerTick() * T
    }

    // IS_SUBCOUNT_EPT_POSITIVE
    predicate ErrorPositive()
      requires T > 0
    {
      C % T < T / 2
    }

    // xMaximumSuppressedTicks
    function MaxSuppressed(): int
      requires C > 0
    {
      0x1_0000 * T / C - 2
    }

    // Counts in a sleep of MaxSuppressed() ticks, rounded down.
    function MaxCounts(): int
      requires C > 0 && T > 0
    {
      MaxSuppressed() * C / T
    }

    // The largest error a schedule can carry: half a count, rounded up.
    function HalfUp(): int {
      T - T / 2
    }
  }

  /** The next tick is tick number k, placed on count `ideal`, `err` subcounts before its due time.
      `shift` is how far dropped ticks have moved the whole schedule. */
  datatype Sched = Sched(ideal: int, err: int, k: int, shift: int)

  ghost predicate OnSchedule(cfg: Config, s: Sched) {
    && s.ideal * cfg.T + s.err == s.k * cfg.C + s.shift
    && -cfg.HalfUp() <= s.err <= cfg.HalfUp()
  }

  // ---- the four updates of the schedule ----

  function First(cfg: Config): Sched
    requires cfg.Valid()
  {
    Sched(cfg.CountsPerTick(), cfg.ErrorPerTick(), 1, 0)
  }

  function AfterTick(cfg: Config, s: Sched): Sched
    requires cfg.Valid()
  {
    var err := s.err + cfg.ErrorPerTick();
    var n := cfg.CountsPerTick();
    if cfg.ErrorPositive() && err >= cfg.T / 2 then
      Sched(s.ideal + n + 1, err - cfg.T, s.k + 1, s.shift)
    else if !cfg.ErrorPositive() && err <= -(cfg.T / 2) then
      Sched(s.ideal + n - 1, err + cfg.T, s.k + 1, s.shift)
    else
      Sched(s.ideal + n, err, s.k + 1, s.shift)
  }

  // Move the next tick interrupt `extra` ticks into the future.
  function Postponed(cfg: Config, s: Sched, extra: nat): Sched
    requires cfg.Valid()
  {
    var counts := extra * cfg.C / cfg.T;
    var err := s.err + extra * cfg.C % cfg.T;
    if err > cfg.T / 2 then
      Sched(s.ideal + counts + 1, err - cfg.T, s.k + extra, s.shift)
    else
      Sched(s.ideal + counts, err, s.k + extra, s.shift)
  }

  // Move the next tick interrupt `ticks` ticks back.
  function Rewound(cfg: Config, s: Sched, ticks: nat): Sched
    requires cfg.Valid()
  {
    var counts := ticks * cfg.C / cfg.T;
    var err := s.err - ticks * cfg.C % cfg.T;
    if err < -(cfg.T / 2) then
      Sched(s.ideal - counts - 1, err + cfg.T, s.k - ticks, s.shift)
    else
      Sched(s.ideal - counts, err, s.k - ticks, s.shift)
  }

  // Restart the schedule on the current count (the dropped-tick path).
  function Rebased(cfg: Config, s: Sched, count: int): Sched {
    Sched(count, s.err, s.k, s.shift + (count - s.ideal) * cfg.T)
  }

  // ---- arithmetic the solver is given one step at a time ----

  lemma {:induction false} AtLeast(n: int, m: int, t: int)
    requires n >= m && t >= 0
    ensures n * t >= m * t
  {
  }

  lemma {:induction false} Distribute(a: int, b: int, t: int)
    ensures (a + b) * t == a * t + b * t
  {
  }

  lemma {:induction false} Subtract(a: int, b: int, t: int)
    ensures (a - b) * t == a * t - b * t
  {
  }

  lemma {:induction false} Associate(a: int, b: int, t: int)
    ensures a * (b * t) == a * b * t
  {
  }

  lemma {:induction false} DistributeLeft(m: int, a: int, b: int)
    ensures m * (a + b) == m * a + m * b
  {
  }

  // The only multiple closer to zero than t is zero itself.
  lemma {:induction false} NoMultiple(m: int, t: nat, d: int)
    requires m * t == d && d < t && -d < t
    ensures d == 0 && m == 0
  {
    if m >= 1 { AtLeast(m, 1, t); }
    if m <= -1 { AtLeast(-1, m, t); }
  }

  lemma {:induction false} Divide(a: int, d: int)
    requires d > 0
    ensures a == a / d * d + a % d && 0 <= a % d < d
  {
  }

  lemma {:induction false} QuotientIs(a: int, d: int, q: int, r: int)
    requires d > 0 && a == q * d + r && 0 <= r < d
    ensures a / d == q && a % d == r
  {
    Divide(a, d);
    Distribute(q, -(a / d), d);
    if q > a / d { AtLeast(q - a / d, 1, d); }
    if q < a / d { AtLeast(a / d - q, 1, d); Distribute(a / d, -q, d); }
  }

  // a / d is the largest q with q * d <= a.
  lemma {:induction false} QuotientIsLargest(a: int, d: int, q: int)
    requires d > 0
    ensures a < (q + 1) * d ==> a / d <= q
    ensures q * d <= a ==> q <= a / d
    ensures a / d * d <= a < (a / d + 1) * d
  {
    Divide(a, d);
    Distribute(a / d, 1, d);
    if a / d > q { AtLeast(a / d, q + 1, d); }
    if a / d < q { AtLeast(q, a / d + 1, d); }
  }

  // ---- facts about the constants ----

  lemma {:induction false} Constants(cfg: Config)
    requires cfg.Valid()
    ensures cfg.C == cfg.CountsPerTick() * cfg.T + cfg.ErrorPerTick()
    ensures -(cfg.T / 2) <= cfg.ErrorPerTick() < cfg.T / 2
    ensures cfg.ErrorPositive() <==> cfg.ErrorPerTick() >= 0
    ensures 2 * cfg.C >= 7 * cfg.T
  {
    RoundedQuotient(cfg.C, cfg.T, cfg.CountsPerTick());
    AtLeast(cfg.CountsPerTick(), 4, cfg.T);
  }

  // The longest sleep, xMaximumSuppressedTicks, leaves room for two ticks more in the counter's range,
  // and for no third.
  lemma {:induction false} LongestSleep(cfg: Config)
    requires cfg.Valid()
    ensures cfg.C > 0 && cfg.MaxSuppressed() >= 1
    ensures (cfg.MaxSuppressed() + 2) * cfg.C <= 0x1_0000 * cfg.T < (cfg.MaxSuppressed() + 3) * cfg.C
  {
    Constants(cfg);
    QuotientIsLargest(0x1_0000 * cfg.T, cfg.C, 3);
  }

  lemma {:induction false} RoundedQuotient(c: nat, t: nat, n: nat)
    requires t > 0 && n == (c + t / 2) / t
    ensures -(t / 2) <= c - n * t <= t / 2
    ensures c - n * t != t / 2 ==> (c % t < t / 2 <==> c - n * t >= 0)
  {
    var q, r := c / t, c % t;
    Divide(c, t);
    if r + t / 2 < t {
      QuotientIs(c + t / 2, t, q, r + t / 2);
    } else {
      Distribute(q, 1, t);
      QuotientIs(c + t / 2, t, q + 1, r + t / 2 - t);
    }
  }

  // ---- every update keeps the schedule exact ----

  // Moving the tick by `ticks` and its count by `counts` changes the error by the difference.
  lemma {:induction false} Moved(cfg: Config, s: Sched, counts: int, ticks: int, err: int)
    requires s.ideal * cfg.T + s.err == s.k * cfg.C + s.shift
    requires counts * cfg.T + err == ticks * cfg.C
    ensures (s.ideal + counts) * cfg.T + (s.err + err) == (s.k + ticks) * cfg.C + s.shift
  {
    Distribute(s.ideal, counts, cfg.T);
    Distribute(s.k, ticks, cfg.C);
  }

  lemma {:induction false} MovedBack(cfg: Config, s: Sched, counts: int, ticks: int, err: int)
    requires s.ideal * cfg.T + s.err == s.k * cfg.C + s.shift
    requires counts * cfg.T + err == ticks * cfg.C
    ensures (s.ideal - counts) * cfg.T + (s.err - err) == (s.k - ticks) * cfg.C + s.shift
  {
    Distribute(s.ideal, -counts, cfg.T);
    Distribute(s.k, -ticks, cfg.C);
  }

  lemma {:induction false} FirstOnSchedule(cfg: Config)
    requires cfg.Valid()
    ensures OnSchedule(cfg, First(cfg))
  {
    Constants(cfg);
  }

  lemma {:induction false} AfterTickOnSchedule(cfg: Config, s: Sched)
    requires cfg.Valid() && OnSchedule(cfg, s)
    ensures OnSchedule(cfg, AfterTick(cfg, s))
    ensures s.ideal + cfg.CountsPerTick() - 1 <= AfterTick(cfg, s).ideal <= s.ideal + cfg.CountsPerTick() + 1
    ensures AfterTick(cfg, s).k == s.k + 1
  {
    Constants(cfg);
    var n, sub := cfg.CountsPerTick(), cfg.ErrorPerTick();
    Distribute(n, 1, cfg.T);
    Distribute(n, -1, cfg.T);
    Moved(cfg, s, n, 1, sub);
    Moved(cfg, s, n + 1, 1, sub - cfg.T);
    Moved(cfg, s, n - 1, 1, sub + cfg.T);
  }

  lemma {:induction false} PostponedOnSchedule(cfg: Config, s: Sched, extra: nat)
    requires cfg.Valid() && OnSchedule(cfg, s)
    ensures OnSchedule(cfg, Postponed(cfg, s, extra))
  {
    var counts, rest := extra * cfg.C / cfg.T, extra * cfg.C % cfg.T;
    Divide(extra * cfg.C, cfg.T);
    Distribute(counts, 1, cfg.T);
    Moved(cfg, s, counts, extra, rest);
    Moved(cfg, s, counts + 1, extra, rest - cfg.T);
  }

  lemma {:induction false} RewoundOnSchedule(cfg: Config, s: Sched, ticks: nat)
    requires cfg.Valid() && OnSchedule(cfg, s)
    ensures OnSchedule(cfg, Rewound(cfg, s, ticks))
  {
    var counts, rest := ticks * cfg.C / cfg.T, ticks * cfg.C % cfg.T;
    Divide(ticks * cfg.C, cfg.T);
    Distribute(counts, 1, cfg.T);
    MovedBack(cfg, s, counts, ticks, rest);
    MovedBack(cfg, s, counts + 1, ticks, rest - cfg.T);
  }

  lemma {:induction false} RebasedOnSchedule(cfg: Config, s: Sched, count: int)
    requires OnSchedule(cfg, s)
    ensures OnSchedule(cfg, Rebased(cfg, s, count))
  {
    Distribute(count, -s.ideal, cfg.T);
  }

  // ---- what an exact schedule means ----

  // How far, in subcounts, count p is from the due time of the next tick.
  function Distance(cfg: Config, s: Sched, p: int): nat {
    var d := p * cfg.T - (s.k * cfg.C + s.shift);
    if d >= 0 then d else -d
  }

  predicate WithinHalfCount(cfg: Config, s: Sched) {
    2 * s.err <= cfg.T && -2 * s.err <= cfg.T
  }

  // The count chosen for a tick is a nearest one exactly when the error is at most half a count.
  lemma {:induction false} NearestCount(cfg: Config, s: Sched)
    requires cfg.Valid() && OnSchedule(cfg, s)
    ensures (forall p :: Distance(cfg, s, s.ideal) <= Distance(cfg, s, p))
       <==> WithinHalfCount(cfg, s)
    ensures cfg.T % 2 == 0 ==> WithinHalfCount(cfg, s)
  {
    if WithinHalfCount(cfg, s) {
      forall p ensures Distance(cfg, s, s.ideal) <= Distance(cfg, s, p) { HalfCountIsNearest(cfg, s, p); }
    } else {
      var T := cfg.T;
      assert (s.ideal + 1) * T == s.ideal * T + T;
      assert (s.ideal - 1) * T == s.ideal * T - T;
      var p := if s.err > 0 then s.ideal + 1 else s.ideal - 1;
      assert Distance(cfg, s, p) < Distance(cfg, s, s.ideal);
    }
  }

  lemma {:induction false} HalfCountIsNearest(cfg: Config, s: Sched, p: int)
    requires cfg.Valid() && OnSchedule(cfg, s) && WithinHalfCount(cfg, s)
    ensures Distance(cfg, s, s.ideal) <= Distance(cfg, s, p)
  {
    var T := cfg.T;
    var apart := (p - s.ideal) * T;
    assert p * T == s.ideal * T + apart;
    if p > s.ideal {
      AtLeast(p - s.ideal, 1, T);
    } else if p < s.ideal {
      AtLeast(s.ideal - p, 1, T);
      assert apart == -((s.ideal - p) * T);
    }
  }

  // Two histories that reach the same tick place it on the same count, or on two adjacent counts that
  // are equally near, to the one subcount by which half an odd tick rate is rounded.
  lemma {:induction false} SameTickSameCount(cfg: Config, a: Sched, b: Sched)
    requires cfg.Valid()
    requires OnSchedule(cfg, a) && OnSchedule(cfg, b)
    requires a.k == b.k && a.shift == b.shift && a.ideal <= b.ideal
    ensures (a.ideal == b.ideal && a.err == b.err) || EquallyNear(cfg, a, b)
  {
    var d := b.ideal - a.ideal;
    Distribute(a.ideal, d, cfg.T);
    assert d * cfg.T == a.err - b.err;
    if d >= 2 { AtLeast(d, 2, cfg.T); }
  }

  // Count `b.ideal` comes right after count `a.ideal`, with the tick due between the two.
  predicate EquallyNear(cfg: Config, a: Sched, b: Sched) {
    && cfg.T > 0 && b == a.(ideal := a.ideal + 1, err := a.err - cfg.T)
    && -(cfg.T % 2) <= a.err + b.err <= cfg.T % 2
  }
}
