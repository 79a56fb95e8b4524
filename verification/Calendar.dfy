/**
 Calendar conversion (src/lib/common/util.c): seconds since 1970 to and from a date and time.
 */
module Calendar {

  type u8 = x: int | 0 <= x < 0x100
  type u16 = x: int | 0 <= x < 0x1_0000
  type u32 = x: int | 0 <= x < 0x1_0000_0000
  type u64 = x: int | 0 <= x < 0x1_0000_0000_0000_0000

  const WORD := 0x1_0000_0000
  const SECS_PER_MIN := 60
  const SECS_PER_HOUR := 3600
  const SECS_PER_DAY := 86400
  const MICROSECONDS := 1_000_000

  datatype DateTime = DateTime(year: u16, month: u8, day: u8, hour: u8, min: u8, sec: u8, usec: u32)

  const MONTH_DAYS := [31, 28, 31, 30, 31, 30, 31, 31, 30, 31, 30, 31]
  const MONTH_DAYS_LEAP := [31, 29, 31, 30, 31, 30, 31, 31, 30, 31, 30, 31]

  predicate Leap(year: nat) {
    year > 0 && year % 4 == 0 && (year % 100 != 0 || year % 400 == 0)
  }

  function DaysInYear(year: nat): (d: nat)
    ensures 365 <= d <= 366
  {
    if Leap(year) then 366 else 365
  }

  function DaysInMonth(year: nat, month: nat): (d: nat)
    requires 1 <= month <= 12
    ensures 28 <= d <= 31
  {
    (if Leap(year) then MONTH_DAYS_LEAP else MONTH_DAYS)[month - 1]
  }

  // ---- what the two conversions compute ----

  // Days in the years from..to-1.
  function DaysOfYears(from: nat, to: nat): (d: nat)
    decreases if from < to then to - from else 0
  {
    if from >= to then 0 else DaysInYear(from) + DaysOfYears(from + 1, to)
  }

  // Days in the months from..to-1 of a year.
  function DaysOfMonths(year: nat, from: nat, to: nat): (d: nat)
    requires 1 <= from && to <= 13
    decreases if from < to then to - from else 0
  {
    if from >= to then 0 else DaysInMonth(year, from) + DaysOfMonths(year, from + 1, to)
  }

  // Days before the given date; years before 1970 count as 365 days each, as the code has it.
  function DayNumber(year: u16, month: u8, day: u8): int
    requires month <= 13
  {
    DaysBefore(year) + DaysOfMonths(year, 1, month) + day - 1
  }

  function Seconds(d: DateTime): int
    requires d.month <= 13
  {
    DayNumber(d.year, d.month, d.day) * SECS_PER_DAY + d.hour * SECS_PER_HOUR + d.min * SECS_PER_MIN + d.sec
  }

  // The year `days` after the start of `year`, and the days into it; the year is kept in 16 bits.
  function YearOf(days: nat, year: u16): (r: (u16, nat))
    ensures r.1 < DaysInYear(r.0)
    decreases days
  {
    if days < DaysInYear(year) then (year, days)
    else YearOf(days - DaysInYear(year), (year + 1) % 0x1_0000)
  }

  function MonthOf(days: nat, year: nat, month: nat): (r: (nat, nat))
    requires 1 <= month <= 12 && days < DaysOfMonths(year, month, 13)
    ensures month <= r.0 <= 12 && r.1 < DaysInMonth(year, r.0)
    ensures days == DaysOfMonths(year, month, r.0) + r.1
    decreases 12 - month
  {
    if days < DaysInMonth(year, month) then (month, days)
    else MonthOf(days - DaysInMonth(year, month), year, month + 1)
  }

  lemma {:induction false} YearIsItsMonths(year: nat)
    ensures DaysOfMonths(year, 1, 13) == DaysInYear(year)
  {
    calc {
      DaysOfMonths(year, 1, 13);
      DaysInMonth(year, 1) + DaysInMonth(year, 2) + DaysInMonth(year, 3) + DaysOfMonths(year, 4, 13);
      { assert DaysOfMonths(year, 4, 13) == 30 + 31 + 30 + DaysOfMonths(year, 7, 13); }
      DaysInMonth(year, 1) + DaysInMonth(year, 2) + DaysInMonth(year, 3) + 91 + DaysOfMonths(year, 7, 13);
      { assert DaysOfMonths(year, 7, 13) == 31 + 31 + 30 + DaysOfMonths(year, 10, 13); }
      DaysInMonth(year, 1) + DaysInMonth(year, 2) + DaysInMonth(year, 3) + 183 + DaysOfMonths(year, 10, 13);
      { assert DaysOfMonths(year, 10, 13) == 92; }
      DaysInYear(year);
    }
  }

  ghost function FromUtc(us: u64): DateTime {
    var secs := us / MICROSECONDS;
    var (year, dayOfYear) := YearOf(secs / SECS_PER_DAY, 1970);
    YearIsItsMonths(year);
    var (month, day) := MonthOf(dayOfYear, year, 1);
    var s := secs % SECS_PER_DAY;
    DateTime(year, month, day + 1, s / SECS_PER_HOUR, s / SECS_PER_MIN % SECS_PER_MIN, s % SECS_PER_MIN,
      us % MICROSECONDS)
  }

  // A date of the calendar from 1970 on, to the second.
  predicate IsDate(d: DateTime) {
    && 1970 <= d.year && 1 <= d.month <= 12 && 1 <= d.day <= DaysInMonth(d.year, d.month)
    && d.hour < 24 && d.min < 60 && d.sec < 60 && d.usec < MICROSECONDS
  }

  // The first second the 16-bit year cannot name.
  const END_OF_YEARS := DaysOfYears(1970, 0x1_0000) * SECS_PER_DAY

  // ---- the code ----

  lemma {:induction false} AddMod(x: int, c: int)
    ensures (x % WORD + c) % WORD == (x + c) % WORD
  {
  }

  lemma {:induction false} OneMoreYear(from: nat, to: nat)
    requires from <= to
    ensures DaysOfYears(from, to + 1) == DaysOfYears(from, to) + DaysInYear(to)
    decreases if from < to then to - from else 0
  {
    if from < to { OneMoreYear(from + 1, to); } else { assert DaysOfYears(from + 1, to + 1) == 0; }
  }

  lemma {:induction false} OneMoreMonth(year: nat, from: nat, to: nat)
    requires 1 <= from <= to <= 12
    ensures DaysOfMonths(year, from, to + 1) == DaysOfMonths(year, from, to) + DaysInMonth(year, to)
    decreases if from < to then to - from else 0
  {
    if from < to { OneMoreMonth(year, from + 1, to); } else { assert DaysOfMonths(year, from + 1, to + 1) == 0; }
  }

  // The days before the given year, as the code counts them.
  function DaysBefore(year: u16): int {
    if year < 1970 then (year - 1970) * 365 else DaysOfYears(1970, year)
  }

  /** utcFromDateTime, in 32-bit arithmetic throughout. */
  method UtcFromDateTime(year: u16, month: u8, day: u8, hour: u8, minute: u8, second: u8) returns (seconds: u32)
    requires month <= 13
    ensures seconds == Seconds(DateTime(year, month, day, hour, minute, second, 0)) % WORD
  {
    hide DaysOfYears, DaysOfMonths, Leap;
    seconds := SecondsOfYears(year);
    seconds := AddMonths(seconds, DaysBefore(year), year, month);
    ghost var exact := (DaysBefore(year) + DaysOfMonths(year, 1, month)) * SECS_PER_DAY;
    AddMod(exact, (day - 1) * SECS_PER_DAY);
    seconds, exact := (seconds + (day - 1) * SECS_PER_DAY) % WORD, exact + (day - 1) * SECS_PER_DAY;
    AddMod(exact, hour * SECS_PER_HOUR);
    seconds, exact := (seconds + hour * SECS_PER_HOUR) % WORD, exact + hour * SECS_PER_HOUR;
    AddMod(exact, minute * SECS_PER_MIN);
    seconds, exact := (seconds + minute * SECS_PER_MIN) % WORD, exact + minute * SECS_PER_MIN;
    AddMod(exact, second);
    seconds := (seconds + second) % WORD;
  }

  // Its first loop: a year is 365 days, and a day more if it is a leap year.
  method SecondsOfYears(year: u16) returns (seconds: u32)
    ensures seconds == DaysBefore(year) * SECS_PER_DAY % WORD
  {
    hide DaysOfYears;
    ghost var exact := (year - 1970) * (SECS_PER_DAY * 365);
    seconds := (year - 1970) * (SECS_PER_DAY * 365) % WORD;
    var i := 1970;
    NoDays(year);
    while i < year
      invariant 1970 <= i && (i <= year || i == 1970)
      invariant exact == if year < 1970 then (year - 1970) * 365 * SECS_PER_DAY
                         else ((year - i) * 365 + DaysOfYears(1970, i)) * SECS_PER_DAY
      invariant seconds == exact % WORD
    {
      OneMoreYear(1970, i);
      if Leap(i) {
        AddMod(exact, SECS_PER_DAY);
        seconds, exact := (seconds + SECS_PER_DAY) % WORD, exact + SECS_PER_DAY;
      }
      i := i + 1;
    }
  }

  // Its second loop, over the months before the given one.
  method AddMonths(start: u32, ghost days: int, year: u16, month: u8) returns (seconds: u32)
    requires month <= 13 && start == days * SECS_PER_DAY % WORD
    ensures seconds == (days + DaysOfMonths(year, 1, month)) * SECS_PER_DAY % WORD
  {
    hide DaysOfMonths;
    seconds := start;
    ghost var exact := days * SECS_PER_DAY;
    var i := 1;
    NoDays(year);
    while i < month
      invariant 1 <= i && (i <= month || i == 1)
      invariant exact == (days + DaysOfMonths(year, 1, if i <= month then i else month)) * SECS_PER_DAY
      invariant seconds == exact % WORD
    {
      OneMoreMonth(year, 1, i);
      var length := if i == 2 && Leap(year) then 29 else MONTH_DAYS[i - 1];
      AddMod(exact, SECS_PER_DAY * length);
      seconds, exact := (seconds + SECS_PER_DAY * length) % WORD, exact + SECS_PER_DAY * length;
      i := i + 1;
    }
  }

  lemma {:induction false} NoDays(year: nat)
    ensures DaysOfYears(1970, 1970) == 0 && DaysOfMonths(year, 1, 1) == 0 && DaysOfMonths(year, 1, 0) == 0
  {
  }

  /** dateTimeFromUtc. */
  method DateTimeFromUtc(utcUs: u64) returns (dateTime: DateTime)
    ensures dateTime == FromUtc(utcUs)
  {
    var days := utcUs / MICROSECONDS / SECS_PER_DAY;
    var year: u16 := 1970;
    while days >= DaysInYear(year)
      invariant 0 <= days && YearOf(days, year) == YearOf(utcUs / MICROSECONDS / SECS_PER_DAY, 1970)
      decreases days
    {
      days, year := days - DaysInYear(year), (year + 1) % 0x1_0000;
    }
    YearIsItsMonths(year);
    ghost var dayOfYear := days;
    var monthDays := if Leap(year) then MONTH_DAYS_LEAP else MONTH_DAYS;
    var month: u8 := 1;
    while days >= monthDays[month - 1]
      invariant 1 <= month <= 12 && 0 <= days < DaysOfMonths(year, month, 13)
      invariant MonthOf(days, year, month) == MonthOf(dayOfYear, year, 1)
      decreases days
    {
      assert DaysOfMonths(year, 13, 13) == 0;
      days, month := days - monthDays[month - 1], month + 1;
    }
    var secondsRemaining := utcUs / MICROSECONDS % SECS_PER_DAY;
    dateTime := DateTime(year, month, days + 1,
                         secondsRemaining / SECS_PER_HOUR,
                         secondsRemaining / SECS_PER_MIN % SECS_PER_MIN,
                         secondsRemaining % SECS_PER_MIN,
                         utcUs % MICROSECONDS);
  }

  // ---- the round trips ----

  // Counting the years off finds the year, whichever it is.
  lemma {:induction false} YearOfExact(from: u16, year: u16, rest: nat)
    requires from <= year && rest < DaysInYear(year)
    ensures YearOf(DaysOfYears(from, year) + rest, from) == (year, rest)
    decreases year - from
  {
    hide Leap, DaysInYear;
    if from >= year {
    } else {
      YearOfExact(from + 1, year, rest);
    }
  }

  lemma {:induction false} YearOfSplits(days: nat, from: u16)
    requires days < DaysOfYears(from, 0x1_0000)
    ensures var (year, rest) := YearOf(days, from);
            from <= year && days == DaysOfYears(from, year) + rest
    decreases days
  {
    hide Leap, DaysInYear;
    if days < DaysInYear(from) {
    } else {
      assert DaysOfYears(0x1_0000, 0x1_0000) == 0;
      YearOfSplits(days - DaysInYear(from), from + 1);
    }
  }

  lemma {:induction false} MonthOfExact(year: nat, from: nat, month: nat, rest: nat)
    requires 1 <= from <= month <= 12 && rest < DaysInMonth(year, month)
    ensures DaysOfMonths(year, from, month) + rest < DaysOfMonths(year, from, 13)
    ensures MonthOf(DaysOfMonths(year, from, month) + rest, year, from) == (month, rest)
    decreases if from < month then month - from else 0
  {
    hide DaysInMonth;
    var days := DaysOfMonths(year, from, month) + rest;
    if from >= month {
      assert days == rest && DaysOfMonths(year, from, 13) >= DaysInMonth(year, from);
    } else {
      MonthOfExact(year, from + 1, month, rest);
      assert days == DaysInMonth(year, from) + (DaysOfMonths(year, from + 1, month) + rest);
      assert DaysOfMonths(year, from, 13) == DaysInMonth(year, from) + DaysOfMonths(year, from + 1, 13);
    }
  }

  lemma {:induction false} YearsGrow(from: nat, a: nat, b: nat)
    requires from <= a < b
    ensures DaysOfYears(from, a) + DaysInYear(a) <= DaysOfYears(from, b)
    decreases b
  {
    hide DaysInYear;
    OneMoreYear(from, b - 1);
    if a >= b - 1 {
    } else {
      YearsGrow(from, a, b - 1);
    }
  }

  // A day, its hour, minute and second are recovered from the seconds.
  lemma {:induction false} SplitSeconds(day: nat, hour: nat, min: nat, sec: nat)
    requires hour < 24 && min < 60 && sec < 60
    ensures var secs := day * SECS_PER_DAY + hour * SECS_PER_HOUR + min * SECS_PER_MIN + sec;
            var s := secs % SECS_PER_DAY;
            && secs / SECS_PER_DAY == day && s / SECS_PER_HOUR == hour
            && s / SECS_PER_MIN % SECS_PER_MIN == min && s % SECS_PER_MIN == sec
  {
    var s := hour * SECS_PER_HOUR + min * SECS_PER_MIN + sec;
    assert s < SECS_PER_DAY;
    assert s / SECS_PER_MIN == hour * 60 + min;
  }

  lemma {:induction false} JoinSeconds(secs: nat)
    ensures var s := secs % SECS_PER_DAY;
            && secs == secs / SECS_PER_DAY * SECS_PER_DAY + s / SECS_PER_HOUR * SECS_PER_HOUR
                       + s / SECS_PER_MIN % SECS_PER_MIN * SECS_PER_MIN + s % SECS_PER_MIN
            && s / SECS_PER_HOUR < 24
  {
    var s := secs % SECS_PER_DAY;
    assert s / SECS_PER_MIN == s / SECS_PER_HOUR * 60 + s / SECS_PER_MIN % 60;
  }

  // A date lies in its year.
  lemma {:induction false} DateWithinYears(d: DateTime)
    requires IsDate(d)
    ensures 0 <= DayNumber(d.year, d.month, d.day) < DaysOfYears(1970, 0x1_0000)
    ensures 0 <= Seconds(d) < END_OF_YEARS
    ensures YearOf(DayNumber(d.year, d.month, d.day), 1970) == (d.year, DaysOfMonths(d.year, 1, d.month) + d.day - 1)
    ensures DaysOfMonths(d.year, 1, d.month) + d.day - 1 < DaysInYear(d.year)
  {
    hide YearOf, DaysOfYears, DaysOfMonths;
    MonthOfExact(d.year, 1, d.month, d.day - 1);
    YearIsItsMonths(d.year);
    YearsGrow(1970, d.year, 0x1_0000);
    YearOfExact(1970, d.year, DaysOfMonths(d.year, 1, d.month) + d.day - 1);
  }

  lemma {:induction false} FromUtcOfDate(d: DateTime, us: u64)
    requires IsDate(d) && us == Seconds(d) * MICROSECONDS + d.usec
    ensures FromUtc(us) == d
  {
    hide YearOf, MonthOf, DaysOfYears, DaysOfMonths, DaysInMonth, DaysInYear;
    DateWithinYears(d);
    MonthOfExact(d.year, 1, d.month, d.day - 1);
    SplitSeconds(DayNumber(d.year, d.month, d.day), d.hour, d.min, d.sec);
    assert us / MICROSECONDS == Seconds(d) && us % MICROSECONDS == d.usec;
  }

  /** Whatever the time, the fields of the date are in the calendar's range and give the time back,
      exactly if its year fits in 16 bits. */
  lemma {:induction false} DateIff(us: u64)
    ensures IsDate(FromUtc(us)) && Seconds(FromUtc(us)) == us / MICROSECONDS && FromUtc(us).usec == us % MICROSECONDS
       <==> us / MICROSECONDS < END_OF_YEARS
  {
    hide YearOf, MonthOf, DaysOfYears, DaysOfMonths, DaysInYear, DaysInMonth, Leap;
    var d := FromUtc(us);
    var secs := us / MICROSECONDS;
    if secs < END_OF_YEARS {
      assert secs / SECS_PER_DAY < DaysOfYears(1970, 0x1_0000);
      YearOfSplits(secs / SECS_PER_DAY, 1970);
      YearIsItsMonths(d.year);
      JoinSeconds(secs);
    } else if IsDate(d) {
      DateWithinYears(d);
    }
  }

  // The first time whose year does not fit is not given back.
  lemma {:induction false} FirstTimeLost(us: u64)
    requires us == END_OF_YEARS * MICROSECONDS
    ensures !(IsDate(FromUtc(us)) && Seconds(FromUtc(us)) == us / MICROSECONDS)
  {
    hide FromUtc, IsDate, Seconds;
    assert us / MICROSECONDS == END_OF_YEARS && us % MICROSECONDS == 0;
    FractionOfTime(us);
    DateIff(us);
  }

  lemma {:induction false} FractionOfTime(us: u64)
    ensures FromUtc(us).usec == us % MICROSECONDS
  {
    hide YearOf, MonthOf;
  }

  // 7 February 2106, 06:28:16, the first date whose seconds do not fit, comes back as 1 January 1970.
  lemma {:induction false} FirstDateLost(d: DateTime)
    requires d == DateTime(2106, 2, 7, 6, 28, 16, 0)
    ensures IsDate(d) && Seconds(d) == WORD
      && FromUtc(Seconds(d) % WORD * MICROSECONDS) == DateTime(1970, 1, 1, 0, 0, 0, 0)
  {
    hide FromUtc, DaysOfYears, DaysOfMonths;
    DaysAreGregorian(2106);
    assert 2105 / 4 - 2105 / 100 + 2105 / 400 - (1969 / 4 - 1969 / 100 + 1969 / 400) == 33;
    assert DaysInMonth(2106, 1) == 31 && DaysInMonth(2106, 2) == 28;
    JanuaryIsFirst(2106);
    TimeZero();
  }

  lemma {:induction false} TimeZero()
    ensures FromUtc(0) == DateTime(1970, 1, 1, 0, 0, 0, 0)
  {
  }

  lemma {:induction false} JanuaryIsFirst(year: nat)
    ensures DaysOfMonths(year, 1, 2) == DaysInMonth(year, 1)
  {
  }

  /** Date to seconds and back: the same date, exactly if its seconds fit in 32 bits. */
  lemma {:induction false} DateRoundTripIff(d: DateTime)
    requires IsDate(d) && d.usec == 0
    ensures FromUtc(Seconds(d) % WORD * MICROSECONDS) == d <==> Seconds(d) < WORD
  {
    hide FromUtc, DaysInMonth, Seconds, DayNumber, YearOf, DaysOfYears, DaysOfMonths, DaysInYear, Leap;
    DateWithinYears(d);
    var us := Seconds(d) % WORD * MICROSECONDS;
    WholeSeconds(Seconds(d) % WORD);
    if Seconds(d) < WORD {
      FromUtcOfDate(d, us);
    } else if FromUtc(us) == d {
      ThirtyTwoBitsAreYears();
      DateIff(us);
    }
  }

  lemma {:induction false} WholeSeconds(secs: nat)
    ensures secs * MICROSECONDS / MICROSECONDS == secs && secs * MICROSECONDS % MICROSECONDS == 0
  {
  }

  /** Seconds to date and back, for every time below 2^32 seconds. */
  lemma {:induction false} SecondsRoundTrip(us: u64)
    requires us / MICROSECONDS < WORD
    ensures IsDate(FromUtc(us)) && Seconds(FromUtc(us)) % WORD == us / MICROSECONDS
    ensures FromUtc(us).year <= 2106
  {
    hide FromUtc, DaysInMonth, Seconds;
    ThirtyTwoBitsAreYears();
    DateIff(us);
    var d := FromUtc(us);
    if d.year > 2106 { LaterThan2106(d); }
  }

  // ---- an independent count of the days ----

  /** Counting year by year agrees with the closed Gregorian count of leap days. */
  lemma {:induction false} DaysAreGregorian(year: nat)
    requires 1970 <= year
    ensures DaysOfYears(1970, year)
         == (year - 1970) * 365
           + ((year - 1) / 4 - (year - 1) / 100 + (year - 1) / 400) - (1969 / 4 - 1969 / 100 + 1969 / 400)
    decreases year
  {
    if year <= 1970 {
    } else {
      DaysAreGregorian(year - 1);
      OneMoreYear(1970, year - 1);
      hide DaysOfYears;
      LeapDayOf(year - 1);
    }
  }

  // Whether a year has a leap day, in the calendar's own words.
  predicate HasLeapDay(year: nat) {
    (year % 4 == 0 && year % 100 != 0) || year % 400 == 0
  }

  // The days before a month of a year, counted without tables.
  function CivilMonths(year: nat, month: nat): int {
    275 * month / 9 - 30 - if month <= 2 then 0 else if HasLeapDay(year) then 1 else 2
  }

  // The days from 1 January 1970 to the given day, counted without tables.
  function CivilDays(year: nat, month: nat, day: nat): int {
    (year - 1970) * 365 + (year - 1) / 4 - (year - 1) / 100 + (year - 1) / 400 - 477
    + CivilMonths(year, month) + day - 1
  }

  /** The month tables are those of the calendar: the days before every month of every year, up to the
      year's end, agree with the closed count. */
  lemma {:induction false} MonthsAreCivil(year: nat, month: nat)
    requires year > 0 && 1 <= month <= 13
    ensures DaysOfMonths(year, 1, month) == CivilMonths(year, month)
  {
    hide DaysOfMonths;
    LeapYearsAre(year);
    NoDays(year);
    if month == 1 {
    } else {
      MonthsAreCivil(year, month - 1);
      OneMoreMonth(year, 1, month - 1);
    }
  }

  lemma {:induction false} LeapYearsAre(year: nat)
    requires year > 0
    ensures Leap(year) <==> HasLeapDay(year)
  {
    CenturiesAreFourths(year);
  }

  /** The seconds of a date are those of its civil day and its time of day. */
  lemma {:induction false} SecondsAreCivil(d: DateTime)
    requires d.year > 0 && 1 <= d.month <= 12
    ensures d.year >= 1970 ==>
              Seconds(d) == CivilDays(d.year, d.month, d.day) * 86400 + d.hour * 3600 + d.min * 60 + d.sec
    ensures d.year < 1970 ==>
              Seconds(d) == ((d.year - 1970) * 365 + CivilMonths(d.year, d.month) + d.day - 1) * 86400
                            + d.hour * 3600 + d.min * 60 + d.sec
  {
    hide DayNumber, CivilDays, CivilMonths;
    DaysAreCivil(d.year, d.month, d.day);
  }

  lemma {:induction false} DaysAreCivil(year: u16, month: u8, day: u8)
    requires year > 0 && 1 <= month <= 12
    ensures year >= 1970 ==> DayNumber(year, month, day) == CivilDays(year, month, day)
    ensures year < 1970 ==> DayNumber(year, month, day) == (year - 1970) * 365 + CivilMonths(year, month) + day - 1
  {
    hide DaysOfYears, DaysOfMonths, CivilMonths;
    MonthsAreCivil(year, month);
    if year >= 1970 { DaysAreGregorian(year); }
  }

  /** And the date of a time is the one whose civil day and time of day make it up, to the microsecond. */
  lemma {:induction false} TimesAreCivil(us: u64)
    requires us / 1_000_000 < END_OF_YEARS
    ensures var d := FromUtc(us);
            && us == d.usec
                     + (CivilDays(d.year, d.month, d.day) * 86400 + d.hour * 3600 + d.min * 60 + d.sec) * 1_000_000
            && d.year >= 1970 && 1 <= d.month <= 12
            && 1 <= d.day <= CivilMonths(d.year, d.month + 1) - CivilMonths(d.year, d.month)
            && d.hour < 24 && d.min < 60 && d.sec < 60 && d.usec < 1_000_000
  {
    hide FromUtc, Seconds, CivilMonths, CivilDays, DaysInMonth, DaysOfMonths;
    DateIff(us);
    var d := FromUtc(us);
    SecondsAreCivil(d);
    MonthsAreCivil(d.year, d.month);
    MonthsAreCivil(d.year, d.month + 1);
    OneMoreMonth(d.year, 1, d.month);
  }

  lemma {:induction false} LeapDayOf(year: nat)
    requires year > 0
    ensures year / 4 - year / 100 + year / 400 - ((year - 1) / 4 - (year - 1) / 100 + (year - 1) / 400)
         == if Leap(year) then 1 else 0
  {
    CarryOf(year, 4);
    CarryOf(year, 100);
    CarryOf(year, 400);
    CenturiesAreFourths(year);
  }

  lemma {:induction false} CenturiesAreFourths(year: nat)
    ensures year % 400 == 0 ==> year % 100 == 0
    ensures year % 100 == 0 ==> year % 4 == 0
  {
    hide *;
    if year % 400 == 0 {
      UniqueQuotient(year, 100, 4 * (year / 400), 0);
    }
    if year % 100 == 0 {
      UniqueQuotient(year, 4, 25 * (year / 100), 0);
    }
  }

  lemma {:induction false} CarryOf(n: nat, k: nat)
    requires n > 0 && k > 0
    ensures n / k - (n - 1) / k == if n % k == 0 then 1 else 0
  {
    var q, r := (n - 1) / k, (n - 1) % k;
    assert n == q * k + (r + 1);
    if r + 1 == k {
      assert n == (q + 1) * k;
      UniqueQuotient(n, k, q + 1, 0);
    } else {
      UniqueQuotient(n, k, q, r + 1);
    }
  }

  lemma {:induction false} UniqueQuotient(n: nat, k: nat, q: nat, r: nat)
    requires k > 0 && r < k && n == q * k + r
    ensures n / k == q && n % k == r
  {
    var d := n / k - q;
    assert d * k == r - n % k;
    var m: int := k;
    assert d > 0 ==> d * m >= m;
    assert d < 0 ==> d * m <= -m;
  }

  lemma {:induction false} ThirtyTwoBitsAreYears()
    ensures WORD < END_OF_YEARS
  {
    hide DaysOfYears;
    DaysAreGregorian(0x1_0000);
  }

  lemma {:induction false} LaterThan2106(d: DateTime)
    requires IsDate(d) && d.year > 2106
    ensures Seconds(d) >= WORD
  {
    hide DaysInMonth, Leap, DaysOfYears, DaysOfMonths;
    DaysAreGregorian(d.year);
    assert (d.year - 1) / 4 - (d.year - 1) / 100 + (d.year - 1) / 400 >= 1969 / 4 - 1969 / 100 + 1969 / 400 by {
      assert (d.year - 1) / 4 >= (d.year - 1) / 100;
    }
  }
}
