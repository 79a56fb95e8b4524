/**
 The bridge power controller of src/apps/bridge/bridgePowerController.cpp: an object whose 32-bit
 fields are updated by each wake-up of its task.

 The clock, the real-time clock's state and the state of the bus pin are inputs or plain fields; the
 contracts say that the 32-bit code takes the steps of PowerSchedule.
 */
module PowerController {
  import opened PowerSchedule

  type u32 = x: int | 0 <= x < 0x1_0000_0000

  const MIN_TASK_SLEEP_MS := 1000
  const MAX_SAMPLE_S := 24 * 60 * 60
  const MAX_SUBSAMPLE_S := 60 * 60
  const MIN_WINDOW_S := 6
  const DEFAULT_SAMPLE_INTERVAL_S := 30 * 60
  const DEFAULT_SAMPLE_DURATION_S := 5 * 60 + 10
  const DEFAULT_SUBSAMPLE_INTERVAL_S := 60
  const DEFAULT_SUBSAMPLE_DURATION_S := 30
  const DEFAULT_ALIGNMENT_S := 5 * 60
  const MAX_ALIGNMENT_S := 24 * 60 * 60

  // Room left below 2^32 seconds so that no start or end of a window wraps.
  const HORIZON := 0x1_0000_0000 - 0x4_0000

  function U32(x: int): u32 {
    x % 0x1_0000_0000
  }

  // A 32-bit value read as a signed one.
  function I32(x: u32): int {
    if x < 0x8000_0000 then x else x - 0x1_0000_0000
  }

  // timeRemainingGeneric (src/lib/common/util.c)
  function TimeRemaining(start: u32, now: u32, timeout: u32): u32 {
    var remaining := I32(U32(U32(start + timeout) - now));
    if remaining < 0 then 0 else remaining
  }

  // Seconds as milliseconds, which wrap after 49 days, but at least the shortest sleep.
  function SleepMs(seconds: nat): (ms: u32)
    ensures seconds <= 4294967 ==> ms == Max(1, seconds) * 1000 == U32(Max(1, seconds) * 1000)
  {
    Max(U32(seconds * 1000), MIN_TASK_SLEEP_MS)
  }

  // It is right across a wrap of the clock, for differences that fit 31 bits.
  lemma {:induction false} TimeRemainingAcrossWrap(start: int, now: int, timeout: u32)
    requires -0x8000_0000 <= start + timeout - now < 0x8000_0000
    ensures TimeRemaining(U32(start), U32(now), timeout) == Remaining(start, now, timeout)
  {
    hide U32;
    var left := start + timeout - now;
    var ms := WordOf(start);
    var mt := WordOf(U32(start) + timeout);
    var mn := WordOf(now);
    SameWord(U32(start) + timeout, start + timeout, -ms);
    SameWord(U32(U32(start) + timeout) - U32(now), left, mn - mt - ms);
    SignedWord(left);
  }

  lemma {:induction false} WordOf(x: int) returns (m: int)
    ensures x == U32(x) + m * 0x1_0000_0000
  {
    m := x / 0x1_0000_0000;
  }

  lemma {:induction false} SignedWord(x: int)
    requires -0x8000_0000 <= x < 0x8000_0000
    ensures I32(U32(x)) == x
  {
    assert U32(x) == if x < 0 then x + 0x1_0000_0000 else x;
  }

  // And for no other differences of 32-bit times.
  lemma {:induction false} TimeRemainingIff(start: u32, now: u32, timeout: u32)
    ensures TimeRemaining(start, now, timeout) == Remaining(start, now, timeout)
       <==> -0x8000_0000 <= start + timeout - now < 0x8000_0000
  {
    var left := start + timeout - now;
    var carry := if start + timeout < 0x1_0000_0000 then 0 else 1;
    assert U32(start + timeout) == start + timeout - carry * 0x1_0000_0000;
    SameWord(U32(start + timeout) - now, left, -carry);
    assert left < 0 ==> U32(left) == left + 0x1_0000_0000;
    assert 0 <= left < 0x1_0000_0000 ==> U32(left) == left;
    assert 0x1_0000_0000 <= left ==> U32(left) == left - 0x1_0000_0000;
  }

  lemma {:induction false} SameWord(a: int, b: int, m: int)
    requires a == b + m * 0x1_0000_0000
    ensures U32(a) == U32(b)
  {
  }

  lemma {:induction false} FitsWord(x: u32)
    ensures U32(x) == x
  {
  }

  // A configured time, or its default when it is out of range.
  function Checked(value: u32, max: u32, default: u32): u32 {
    if value > max || value < MIN_WINDOW_S then default else value
  }

  method Left(start: u32, now: u32, timeout: u32) returns (left: u32)
    requires -0x8000_0000 <= start + timeout - now < 0x8000_0000
    ensures left == Remaining(start, now, timeout)
  {
    hide TimeRemaining, U32;
    FitsWord(start);
    FitsWord(now);
    TimeRemainingAcrossWrap(start, now, timeout);
    left := TimeRemaining(start, now, timeout);
  }

  class BridgePowerController {
    var powerControlEnabled: bool
    var sampleIntervalS: u32
    var sampleDurationS: u32
    var subsampleIntervalS: u32
    var subsampleDurationS: u32
    var sampleIntervalStartS: u32
    var subsampleIntervalStartS: u32
    var alignmentS: u32
    const ticksSamplingEnabled: bool
    var timebaseSet: bool
    var initDone: bool
    var subsamplingEnabled: bool
    var configError: bool

    // the bus pin, and the aggregation notifications sent to the sensor controller
    var busOn: bool
    var notifications: nat

    ghost function Cfg(): Config
      reads this
    {
      Config(sampleIntervalS, sampleDurationS, subsampleIntervalS, subsampleDurationS, alignmentS, subsamplingEnabled)
    }

    ghost function View(): Control
      reads this
    {
      Control(sampleIntervalStartS, subsampleIntervalStartS, busOn)
    }

    // The ranges that the constructor enforces.
    ghost predicate Valid()
      reads this
    {
      && MIN_WINDOW_S <= sampleIntervalS <= MAX_SAMPLE_S
      && MIN_WINDOW_S <= sampleDurationS <= MAX_SAMPLE_S
      && MIN_WINDOW_S <= subsampleIntervalS <= MAX_SUBSAMPLE_S
      && MIN_WINDOW_S <= subsampleDurationS <= MAX_SUBSAMPLE_S
      && alignmentS <= MAX_ALIGNMENT_S
    }

    // No 32-bit sum of an alignment wraps.
    ghost predicate Alignable(now: u32)
      reads this
    {
      now < HORIZON && sampleIntervalStartS < HORIZON
    }

    // No 32-bit sum or difference of a wake-up while sampling wraps.
    ghost predicate InRange(now: u32)
      reads this
    {
      && Alignable(now) && (subsamplingEnabled ==> subsampleIntervalStartS < HORIZON)
      && now - sampleIntervalStartS <= 0x8000_0000 + sampleDurationS
      && (subsamplingEnabled ==> now - subsampleIntervalStartS <= 0x8000_0000 + subsampleDurationS)
    }

    constructor (sampleIntervalMs: u32, sampleDurationMs: u32, subsampleIntervalMs: u32, subsampleDurationMs: u32,
                 subsampling: bool, enabled: bool, alignment: u32, ticksSampling: bool)
      ensures Valid() && !timebaseSet && !initDone
      ensures sampleIntervalStartS == subsampleIntervalStartS == 0
      // from six seconds to a day, or an hour for subsamples; otherwise the default
      ensures sampleIntervalS == if 6 <= sampleIntervalMs / 1000 <= 86400 then sampleIntervalMs / 1000 else 1800
      ensures sampleDurationS == if 6 <= sampleDurationMs / 1000 <= 86400 then sampleDurationMs / 1000 else 310
      ensures subsampleIntervalS == if 6 <= subsampleIntervalMs / 1000 <= 3600 then subsampleIntervalMs / 1000 else 60
      ensures subsampleDurationS == if 6 <= subsampleDurationMs / 1000 <= 3600 then subsampleDurationMs / 1000 else 30
      ensures alignmentS == if alignment <= 86400 then alignment else 300
      ensures powerControlEnabled <==> enabled && sampleDurationS != sampleIntervalS
      ensures subsamplingEnabled <==> subsampling && subsampleDurationS != subsampleIntervalS
      ensures configError <==> !(&& sampleIntervalS == sampleIntervalMs / 1000
                                 && sampleDurationS == sampleDurationMs / 1000 != sampleIntervalS
                                 && subsampleIntervalS == subsampleIntervalMs / 1000
                                 && subsampleDurationS == subsampleDurationMs / 1000 != subsampleIntervalS
                                 && alignmentS == alignment)
      ensures ticksSamplingEnabled == ticksSampling && !busOn && notifications == 0
    {
      var interval := Checked(sampleIntervalMs / 1000, MAX_SAMPLE_S, DEFAULT_SAMPLE_INTERVAL_S);
      var duration := Checked(sampleDurationMs / 1000, MAX_SAMPLE_S, DEFAULT_SAMPLE_DURATION_S);
      var subInterval := Checked(subsampleIntervalMs / 1000, MAX_SUBSAMPLE_S, DEFAULT_SUBSAMPLE_INTERVAL_S);
      var subDuration := Checked(subsampleDurationMs / 1000, MAX_SUBSAMPLE_S, DEFAULT_SUBSAMPLE_DURATION_S);
      var align := if alignment > MAX_ALIGNMENT_S then DEFAULT_ALIGNMENT_S else alignment;
      sampleIntervalS, sampleDurationS := interval, duration;
      subsampleIntervalS, subsampleDurationS := subInterval, subDuration;
      alignmentS, ticksSamplingEnabled := align, ticksSampling;
      sampleIntervalStartS, subsampleIntervalStartS := 0, 0;
      timebaseSet, initDone := false, false;
      powerControlEnabled := enabled && duration != interval;
      subsamplingEnabled := subsampling && subDuration != subInterval;
      configError :=
        || interval != sampleIntervalMs / 1000 || duration != sampleDurationMs / 1000
        || subInterval != subsampleIntervalMs / 1000 || subDuration != subsampleDurationMs / 1000
        || align != alignment || duration == interval || subDuration == subInterval;
      busOn, notifications := false, 0;
    }

    // _alignNextInterval
    method AlignNextInterval(now: u32, lastStart: u32) returns (aligned: u32)
      requires Valid() && now < HORIZON && lastStart < HORIZON
      ensures aligned == AlignNext(Cfg(), now, lastStart)
    {
      hide NextOnGrid, RoundUp, LastStart;
      var last := StartOfInterval(now, lastStart);
      aligned := FirstNotBefore(now, last);
      aligned := Align(aligned);
    }

    // The rounding up to the alignment, which may be none.
    method Align(start: u32) returns (aligned: u32)
      requires Valid() && start <= HORIZON + MAX_SAMPLE_S
      ensures aligned == RoundUp(start, alignmentS)
    {
      aligned := start;
      if alignmentS != 0 {
        DivMod(start, alignmentS);
        var remainder := start % alignmentS;
        if remainder != 0 {
          aligned := U32(start + (alignmentS - remainder));
        }
      }
    }

    // The start to count intervals from: the current time if there was none.
    method StartOfInterval(now: u32, lastStart: u32) returns (last: u32)
      requires Valid()
      ensures last == LastStart(now, lastStart, sampleIntervalS)
        && (now < HORIZON && lastStart < HORIZON ==> last < HORIZON)
    {
      RemainderAtMost(now, sampleIntervalS);
      last := if lastStart == 0 then now - now % sampleIntervalS else lastStart;
    }

    // The loop to the first start not before now.
    method FirstNotBefore(now: u32, last: u32) returns (aligned: u32)
      requires Valid() && now < HORIZON && last < HORIZON
      ensures aligned == NextOnGrid(now, last, sampleIntervalS)
      ensures aligned <= HORIZON + MAX_SAMPLE_S
    {
      aligned := U32(last + sampleIntervalS);
      while aligned < now
        invariant aligned <= HORIZON + MAX_SAMPLE_S
        invariant NextOnGrid(now, aligned - sampleIntervalS, sampleIntervalS) == NextOnGrid(now, last, sampleIntervalS)
        decreases now - aligned
      {
        aligned := U32(aligned + sampleIntervalS);
      }
    }

    // checkAndUpdateTimebase
    method CheckAndUpdateTimebase(rtcSet: bool, now: u32)
      requires Valid() && Alignable(now)
      modifies this`timebaseSet, this`sampleIntervalStartS, this`subsampleIntervalStartS
      ensures timebaseSet <==> old(timebaseSet) || rtcSet || ticksSamplingEnabled
      ensures if timebaseSet && !old(timebaseSet)
              then sampleIntervalStartS == subsampleIntervalStartS == AlignNext(Cfg(), now, old(sampleIntervalStartS))
              else unchanged(`sampleIntervalStartS) && unchanged(`subsampleIntervalStartS)
      ensures timebaseSet && !old(timebaseSet) && old(sampleIntervalStartS) == 0
                && (alignmentS == 0 || sampleIntervalS % alignmentS == 0) ==>
                  sampleIntervalStartS % sampleIntervalS == 0 && now < sampleIntervalStartS <= now + sampleIntervalS
      ensures timebaseSet && !old(timebaseSet) ==>
                && now <= sampleIntervalStartS <= Max(now, old(sampleIntervalStartS)) + sampleIntervalS + alignmentS
                && (alignmentS > 0 ==> sampleIntervalStartS % alignmentS == 0)
    {
      hide AlignNext;
      if (rtcSet || ticksSamplingEnabled) && !timebaseSet {
        AlignNextIsNear(Cfg(), now, sampleIntervalStartS);
        if alignmentS == 0 || sampleIntervalS % alignmentS == 0 { FirstStart(Cfg(), now); }
        sampleIntervalStartS := AlignNextInterval(now, sampleIntervalStartS);
        subsampleIntervalStartS := sampleIntervalStartS;
        timebaseSet := true;
      }
    }

    // powerControlEnable
    method PowerControlEnable(enable: bool, now: u32)
      requires Valid() && Alignable(now)
      modifies this`powerControlEnabled, this`sampleIntervalStartS, this`subsampleIntervalStartS
      ensures powerControlEnabled == enable
      ensures View() == SetEnabled(Cfg(), old(View()), enable, now)
      ensures enable ==> sampleIntervalStartS >= now
    {
      powerControlEnabled := enable;
      if enable {
        if sampleIntervalStartS < now {
          AlignNextIsNear(Cfg(), now, sampleIntervalStartS);
          sampleIntervalStartS := AlignNextInterval(now, sampleIntervalStartS);
          subsampleIntervalStartS := sampleIntervalStartS;
        }
      }
    }

    // powerBusAndSetSignal: does nothing when the bus is already as wanted.
    method PowerBus(on: bool)
      modifies this`busOn
      ensures busOn == on
    {
      if busOn != on {
        busOn := on;
      }
    }

    // What the task does before it samples: the timebase is looked for, and once it is found the
    // sample start is aligned to it.
    twostate predicate TimebaseUpdated(rtcSet: bool, now: u32)
      requires old(Valid()) && Valid()
      reads this
    {
      && (timebaseSet <==> old(timebaseSet) || rtcSet || ticksSamplingEnabled)
      && sampleIntervalStartS
           == (if timebaseSet && !old(timebaseSet) then AlignNext(Cfg(), now, old(sampleIntervalStartS))
               else old(sampleIntervalStartS))
      && (timebaseSet && !old(timebaseSet) ==> sampleIntervalStartS >= now)
    }

    // The first update, once the initial power-on delay is over (lines 154-188).
    method Initialize(rtcSet: bool, now: u32) returns (sleepMs: u32)
      requires Valid() && Alignable(now) && !initDone
      modifies this`initDone, this`busOn, this`timebaseSet, this`sampleIntervalStartS, this`subsampleIntervalStartS
      ensures initDone && TimebaseUpdated(rtcSet, now)
      ensures busOn == !(timebaseSet && sampleIntervalStartS > now && powerControlEnabled)
      ensures sleepMs == if timebaseSet && sampleIntervalStartS > now then SleepMs(sampleIntervalStartS - now)
                         else MIN_TASK_SLEEP_MS
    {
      sleepMs := MIN_TASK_SLEEP_MS;
      PowerBus(true);
      CheckAndUpdateTimebase(rtcSet, now);
      if timebaseSet && sampleIntervalStartS > now {
        sleepMs := SleepMs(sampleIntervalStartS - now);
        PowerBus(!powerControlEnabled);
      }
      initDone := true;
    }

    // Sampling is not enabled (lines 265-290).
    method Idle(rtcSet: bool, now: u32) returns (sleepMs: u32)
      requires Valid() && Alignable(now) && !(powerControlEnabled && timebaseSet)
      modifies this`busOn, this`timebaseSet, this`sampleIntervalStartS, this`subsampleIntervalStartS
      ensures TimebaseUpdated(rtcSet, now)
      ensures busOn == !powerControlEnabled
      ensures sleepMs == if powerControlEnabled && timebaseSet && sampleIntervalStartS > now
                         then SleepMs(sampleIntervalStartS - now) else MIN_TASK_SLEEP_MS
    {
      sleepMs := MIN_TASK_SLEEP_MS;
      if !powerControlEnabled {
        if !busOn {
          PowerBus(true);
        }
        CheckAndUpdateTimebase(rtcSet, now);
      } else {
        if busOn {
          PowerBus(false);
        }
        CheckAndUpdateTimebase(rtcSet, now);
        if timebaseSet && sampleIntervalStartS > now {
          sleepMs := SleepMs(sampleIntervalStartS - now);
        }
      }
    }

    // _update: returns how long the task sleeps.
    method Update(rtcSet: bool, now: u32) returns (sleepMs: u32)
      requires Valid() && Alignable(now)
      requires initDone && powerControlEnabled && timebaseSet ==> InRange(now)
      modifies this
      ensures Valid() && initDone
      ensures Cfg() == old(Cfg()) && powerControlEnabled == old(powerControlEnabled)
      ensures old(initDone && powerControlEnabled && timebaseSet) ==>
                var out := Wake(Cfg(), old(View()), now);
                && View() == out.control && sleepMs == U32(out.sleep * 1000)
                && notifications == old(notifications) + (if out.notified then 1 else 0)
                && timebaseSet
      ensures !old(initDone && powerControlEnabled && timebaseSet) ==>
                && notifications == old(notifications)
                && TimebaseUpdated(rtcSet, now)
                && busOn == (if old(initDone) then !powerControlEnabled
                             else !(timebaseSet && sampleIntervalStartS > now && powerControlEnabled))
                && (timebaseSet && powerControlEnabled && sampleIntervalStartS > now
                    ==> sleepMs == SleepMs(sampleIntervalStartS - now))
    {
      if !initDone {
        sleepMs := Initialize(rtcSet, now);
      } else if powerControlEnabled && timebaseSet {
        ghost var before := View();
        ghost var next;
        sleepMs, next := Sample(now);
        SameWake(Cfg(), before, now, next);
      } else {
        sleepMs := Idle(rtcSet, now);
      }
    }

    // Sampling is enabled (lines 190-264).
    method Sample(now: u32) returns (sleepMs: u32, ghost next: int)
      requires Valid() && InRange(now)
      modifies this`busOn, this`sampleIntervalStartS, this`subsampleIntervalStartS, this`notifications
      ensures var out := WakeWith(Cfg(), old(View()), now, next);
              && View() == out.control && sleepMs == U32(out.sleep * 1000)
              && notifications == old(notifications) + (if out.notified then 1 else 0)
              && (out.notified ==> next == AlignNext(Cfg(), now, old(sampleIntervalStartS)))
    {
      hide U32, SleepMs, AlignNext;
      FitsWord(MIN_TASK_SLEEP_MS);
      next := 0;
      sleepMs := MIN_TASK_SLEEP_MS;
      if now < sampleIntervalStartS {
        sleepMs := U32((sampleIntervalStartS - now) * 1000);
        return;
      }
      var sampleTimeRemaining := Left(sampleIntervalStartS, now, sampleDurationS);
      if sampleTimeRemaining != 0 {
        if subsamplingEnabled {
          sleepMs := Subsample(now, sampleTimeRemaining, next);
        } else {
          PowerBus(true);
          sleepMs := SleepMs(sampleTimeRemaining);
        }
      } else {
        AlignNextIsNear(Cfg(), now, sampleIntervalStartS);
        var nextSampleEpoch := AlignNextInterval(now, sampleIntervalStartS);
        next := nextSampleEpoch;
        sampleIntervalStartS, subsampleIntervalStartS := nextSampleEpoch, nextSampleEpoch;
        sleepMs := if now < nextSampleEpoch then SleepMs(nextSampleEpoch - now) else MIN_TASK_SLEEP_MS;
        if nextSampleEpoch > now {
          PowerBus(false);
        }
        notifications := notifications + 1;
      }
    }

    // The subsample window (lines 202-234).
    method Subsample(now: u32, sampleTimeRemaining: u32, ghost next: int) returns (sleepMs: u32)
      requires Valid() && InRange(now) && subsamplingEnabled && now >= sampleIntervalStartS
      requires sampleTimeRemaining == Remaining(sampleIntervalStartS, now, sampleDurationS) > 0
      modifies this`busOn, this`subsampleIntervalStartS
      ensures var out := WakeWith(Cfg(), old(View()), now, next);
              View() == out.control && sleepMs == U32(out.sleep * 1000) && !out.notified
    {
      hide U32, SleepMs;
      if now < subsampleIntervalStartS {
        var secondsUntilNext := subsampleIntervalStartS - now;
        sleepMs := SleepMs(Min(sampleTimeRemaining, secondsUntilNext));
        return;
      }
      var subsampleTimeRemaining := Left(subsampleIntervalStartS, now, subsampleDurationS);
      if subsampleTimeRemaining != 0 {
        PowerBus(true);
        sleepMs := SleepMs(subsampleTimeRemaining);
      } else {
        FitsWord(subsampleIntervalStartS + subsampleIntervalS);
        var nextSubsampleEpoch := U32(subsampleIntervalStartS + subsampleIntervalS);
        subsampleIntervalStartS := nextSubsampleEpoch;
        var secondsUntilNext := if nextSubsampleEpoch > now then nextSubsampleEpoch - now else 0;
        sleepMs := SleepMs(Min(sampleTimeRemaining, secondsUntilNext));
        if nextSubsampleEpoch > now {
          PowerBus(false);
        }
      }
    }
  }
}
