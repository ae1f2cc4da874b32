/**
 Validation, time arithmetic and clock writes of `rtc_utils.c`.

 The STM32 RTC peripheral and its HAL are modelled as an abstract `Clock`
 record: a HAL setter becomes a record update, a HAL getter a field read.
 The weekday numbering is the HAL's: Monday = 1, …, Sunday = 7.
 */
module Rtc {
  import opened Bytes

  const RTC_WEEKDAY_MONDAY: uint8 := 1
  const RTC_WEEKDAY_SUNDAY: uint8 := 7
  /** The HAL's RTC_DAYLIGHTSAVING_NONE and RTC_STOREOPERATION_RESET, both 0. */
  const DAYLIGHTSAVING_NONE: uint32 := 0
  const STOREOPERATION_RESET: uint32 := 0

  const SECONDS_PER_DAY: nat := 86400
  const SECONDS_PER_WEEK: nat := 604800

  /** RTC_TimeTypeDef, with the fields the firmware touches. */
  datatype RtcTime = RtcTime(
    hours: uint8, minutes: uint8, seconds: uint8,
    subSeconds: uint32, dayLightSaving: uint32, storeOperation: uint32)

  /** RTC_DateTypeDef; `date` is the day of the month, `year` the last two digits. */
  datatype RtcDate = RtcDate(weekDay: uint8, month: uint8, date: uint8, year: uint8)

  /** The fixed alarm configuration setRTCAlarm writes (no field masked, weekday match, alarm A), or any other. */
  datatype AlarmSettings = WeekdayMatchOnAlarmA | OtherSettings(code: nat)

  /** RTC_AlarmTypeDef */
  datatype RtcAlarm = RtcAlarm(alarmTime: RtcTime, settings: AlarmSettings, alarmDateWeekDay: uint8)

  /** What the HAL reads back from and writes to the RTC peripheral. */
  datatype Clock = Clock(time: RtcTime, date: RtcDate, alarm: RtcAlarm, alarmIrqEnabled: bool)

  const ZERO_TIME: RtcTime := RtcTime(0, 0, 0, 0, 0, 0)
  const ZERO_DATE: RtcDate := RtcDate(0, 0, 0, 0)

  // ---------------------------------------------------------------------------
  // Validators

  /** validateTime: a 24-hour clock reading. */
  predicate ValidateTime(t: RtcTime) {
    t.hours < 24 && t.minutes < 60 && t.seconds < 60
  }

  /** validateDate: day 1..31, month 1..12, weekday Monday..Sunday; the year is never checked. */
  predicate ValidateDate(d: RtcDate) {
    && d.date <= 31 && d.date != 0
    && d.month <= 12 && d.month != 0
    && d.weekDay <= RTC_WEEKDAY_SUNDAY && d.weekDay != 0
  }

  /** validateAlarm: a weekday Monday..Sunday and a valid alarm time. */
  predicate ValidateAlarm(a: RtcAlarm) {
    && a.alarmDateWeekDay <= RTC_WEEKDAY_SUNDAY && a.alarmDateWeekDay != 0
    && ValidateTime(a.alarmTime)
  }

  /**
   The three validators as ranges: the date check ignores the year, and the
   alarm check looks only at the weekday and the alarm time, never at the
   alarm's settings.
   */
  lemma ValidatorRanges(t: RtcTime, d: RtcDate, a: RtcAlarm, year: uint8, settings: AlarmSettings)
    ensures ValidateTime(t) <==> 0 <= t.hours <= 23 && 0 <= t.minutes <= 59 && 0 <= t.seconds <= 59
    ensures ValidateDate(d) <==> 1 <= d.date <= 31 && 1 <= d.month <= 12 && 1 <= d.weekDay <= 7
    ensures ValidateDate(d.(year := year)) == ValidateDate(d)
    ensures ValidateAlarm(a) <==> 1 <= a.alarmDateWeekDay <= 7 && ValidateTime(a.alarmTime)
    ensures ValidateAlarm(a.(settings := settings)) == ValidateAlarm(a)
  {
  }

  // ---------------------------------------------------------------------------
  // Time arithmetic

  /** Seconds since midnight that a time's fields spell, without any reduction. */
  function TotalSeconds(t: RtcTime): nat {
    3600 * t.hours + 60 * t.minutes + t.seconds
  }

  /** A positive multiple of a positive number is at least that number. */
  lemma {:induction false} MultipleAtLeast(k: int, n: int)
    requires k >= 1 && n > 0
    ensures k * n >= n
    decreases k
  {
    if k > 1 {
      MultipleAtLeast(k - 1, n);
      assert k * n == (k - 1) * n + n;
    }
  }

  /** The unique decomposition of a multiple-plus-remainder. */
  lemma ModOfDecomposition(x: int, q: int, r: int, n: int)
    requires n > 0 && 0 <= r < n && x == q * n + r
    ensures x % n == r && x / n == q
  {
    var q' := x / n;
    var r' := x % n;
    var d := q - q';
    assert d * n == q * n - q' * n;
    assert d * n == r' - r;
    if d >= 1 {
      MultipleAtLeast(d, n);
    }
  }

  /**
   The carries of timestampAfter: adding h:m:s field by field, carrying
   seconds into minutes and minutes into hours and dropping whole days, leaves
   exactly the total modulo one day.
   */
  lemma CarryArithmetic(th: nat, tm: nat, ts: nat, h: nat, m: nat, s: nat)
    ensures var sec := ts + s;
            var min := tm + m + sec / 60;
            var hr := th + h + min / 60;
            3600 * (hr % 24) + 60 * (min % 60) + sec % 60
              == (3600 * (th + h) + 60 * (tm + m) + ts + s) % SECONDS_PER_DAY
  {
    var sec := ts + s;
    var min := tm + m + sec / 60;
    var hr := th + h + min / 60;
    assert sec == 60 * (sec / 60) + sec % 60;
    assert min == 60 * (min / 60) + min % 60;
    assert hr == 24 * (hr / 24) + hr % 24;
    var rest := 3600 * (hr % 24) + 60 * (min % 60) + sec % 60;
    var total := 3600 * (th + h) + 60 * (tm + m) + ts + s;
    assert total == 60 * min + sec % 60 + 3600 * (th + h);
    assert total == 3600 * hr + 60 * (min % 60) + sec % 60;
    assert total == (hr / 24) * SECONDS_PER_DAY + rest;
    ModOfDecomposition(total, hr / 24, rest, SECONDS_PER_DAY);
  }

  /** Seconds since midnight of a valid time. */
  function SecondsOfDay(t: RtcTime): (n: nat)
    requires ValidateTime(t)
    ensures n < SECONDS_PER_DAY
  {
    TotalSeconds(t)
  }

  /** A valid time is determined by its seconds since midnight. */
  lemma SecondsOfDayInjective(a: RtcTime, b: RtcTime)
    requires ValidateTime(a) && ValidateTime(b)
    requires SecondsOfDay(a) == SecondsOfDay(b)
    ensures a.hours == b.hours && a.minutes == b.minutes && a.seconds == b.seconds
  {
    ModOfDecomposition(SecondsOfDay(a), a.hours, 60 * a.minutes + a.seconds, 3600);
    ModOfDecomposition(SecondsOfDay(b), b.hours, 60 * b.minutes + b.seconds, 3600);
    ModOfDecomposition(60 * a.minutes + a.seconds, a.minutes, a.seconds, 60);
    ModOfDecomposition(60 * b.minutes + b.seconds, b.minutes, b.seconds, 60);
  }

  /**
   timestampAfter: the time `hours:minutes:seconds` later, wrapped at midnight.
   The sums are computed in `unsigned`, which cannot overflow for byte inputs.
   */
  function TimestampAfter(t: RtcTime, hours: uint8, minutes: uint8, seconds: uint8): (r: RtcTime)
    ensures ValidateTime(r)
    ensures r == t.(hours := r.hours, minutes := r.minutes, seconds := r.seconds)
    ensures SecondsOfDay(r) == (TotalSeconds(t) + 3600 * hours + 60 * minutes + seconds) % SECONDS_PER_DAY
  {
    var newSeconds := t.seconds + seconds;
    var newMinutes := t.minutes + minutes + newSeconds / 60;
    var newHours := t.hours + hours + newMinutes / 60;
    CarryArithmetic(t.hours, t.minutes, t.seconds, hours, minutes, seconds);
    t.(seconds := newSeconds % 60, minutes := newMinutes % 60, hours := newHours % 24)
  }

  /**
   timestampAfterSeconds: the time `seconds` later, wrapped at midnight. The
   first sum is a 32-bit `unsigned` addition and wraps when it overflows.
   */
  function TimestampAfterSeconds(t: RtcTime, seconds: uint32): (r: RtcTime)
    ensures ValidateTime(r)
    ensures r == t.(hours := r.hours, minutes := r.minutes, seconds := r.seconds)
    ensures t.seconds + seconds < UINT32_MODULUS ==>
      SecondsOfDay(r) == (TotalSeconds(t) + seconds) % SECONDS_PER_DAY
  {
    var newSeconds := (t.seconds + seconds) % UINT32_MODULUS;
    assert t.seconds + seconds < UINT32_MODULUS ==> newSeconds == t.seconds + seconds by {
      if t.seconds + seconds < UINT32_MODULUS {
        ModOfDecomposition(t.seconds + seconds, 0, t.seconds + seconds, UINT32_MODULUS);
      }
    }
    var newMinutes := t.minutes + newSeconds / 60;
    var newHours := t.hours + newMinutes / 60;
    CarryArithmetic(t.hours, t.minutes, t.seconds, 0, 0, seconds);
    t.(seconds := newSeconds % 60, minutes := newMinutes % 60, hours := newHours % 24)
  }

  /** Advancing by a count of seconds and by the same amount split into h:m:s gives the same time. */
  lemma AfterSecondsAgreesWithAfter(t: RtcTime, hours: uint8, minutes: uint8, seconds: uint8)
    ensures TimestampAfterSeconds(t, 3600 * hours + 60 * minutes + seconds) == TimestampAfter(t, hours, minutes, seconds)
  {
    var a := TimestampAfterSeconds(t, 3600 * hours + 60 * minutes + seconds);
    var b := TimestampAfter(t, hours, minutes, seconds);
    SecondsOfDayInjective(a, b);
  }

  /** Adding nothing is the identity exactly on valid times: the validator accepts what the arithmetic produces. */
  lemma ValidTimeIsFixedByZeroAdvance(t: RtcTime)
    ensures ValidateTime(t) <==> TimestampAfter(t, 0, 0, 0) == t
  {
    if ValidateTime(t) {
      SecondsOfDayInjective(t, TimestampAfter(t, 0, 0, 0));
    }
  }

  // ---------------------------------------------------------------------------
  // Validate-then-write setters (the HAL write is assumed to succeed)

  /** setRTCTimeS */
  function SetTimeS(c: Clock, t: RtcTime): (r: Clock)
    ensures r == c.(time := r.time)
    ensures r.time == (if ValidateTime(t) then t else c.time)
  {
    if ValidateTime(t) then c.(time := t) else c
  }

  /** setRTCDateS */
  function SetDateS(c: Clock, d: RtcDate): (r: Clock)
    ensures r == c.(date := r.date)
    ensures r.date == (if ValidateDate(d) then d else c.date)
  {
    if ValidateDate(d) then c.(date := d) else c
  }

  /** setRTCAlarmS */
  function SetAlarmS(c: Clock, a: RtcAlarm): (r: Clock)
    ensures r == c.(alarm := r.alarm)
    ensures r.alarm == (if ValidateAlarm(a) then a else c.alarm)
  {
    if ValidateAlarm(a) then c.(alarm := a) else c
  }

  /** setRTCTime: builds a time with zero sub-seconds and no daylight saving, then validates and writes. */
  function SetTime(c: Clock, hour: uint8, minute: uint8, second: uint8): (r: Clock)
    ensures r == c.(time := r.time)
    ensures hour < 24 && minute < 60 && second < 60 ==> r.time == RtcTime(hour, minute, second, 0, 0, 0)
    ensures !(hour < 24 && minute < 60 && second < 60) ==> r == c
  {
    SetTimeS(c, RtcTime(hour, minute, second, 0, DAYLIGHTSAVING_NONE, STOREOPERATION_RESET))
  }

  /** setRTCDate */
  function SetDate(c: Clock, year: uint8, month: uint8, day: uint8, weekDay: uint8): (r: Clock)
    ensures r == c.(date := r.date)
    ensures 1 <= day <= 31 && 1 <= month <= 12 && 1 <= weekDay <= 7 ==>
      r.date.year == year && r.date.month == month && r.date.date == day && r.date.weekDay == weekDay
    ensures !(1 <= day <= 31 && 1 <= month <= 12 && 1 <= weekDay <= 7) ==> r == c
  {
    SetDateS(c, RtcDate(weekDay, month, day, year))
  }

  /** setRTCAlarm: enables the alarm interrupt, then validates and writes a weekday alarm on alarm A. */
  function SetAlarm(c: Clock, weekDay: uint8, hour: uint8, minute: uint8, second: uint8): (r: Clock)
    ensures r.alarmIrqEnabled
    ensures r == c.(alarmIrqEnabled := true, alarm := r.alarm)
    ensures 1 <= weekDay <= 7 && hour < 24 && minute < 60 && second < 60 ==>
      r.alarm == RtcAlarm(RtcTime(hour, minute, second, 0, 0, 0), WeekdayMatchOnAlarmA, weekDay)
    ensures !(1 <= weekDay <= 7 && hour < 24 && minute < 60 && second < 60) ==> r.alarm == c.alarm
  {
    var alarm := RtcAlarm(RtcTime(hour, minute, second, 0, 0, 0), WeekdayMatchOnAlarmA, weekDay);
    SetAlarmS(c.(alarmIrqEnabled := true), alarm)
  }

  /** A valid clock: the time, date and alarm all pass their validators. */
  predicate ValidClock(c: Clock) {
    ValidateTime(c.time) && ValidateDate(c.date) && ValidateAlarm(c.alarm)
  }

  /** Whatever the inputs, the gated setters keep a valid clock valid, and a write takes effect only when its validator passes. */
  lemma SettersKeepClockValid(c: Clock, t: RtcTime, d: RtcDate, a: RtcAlarm,
                              hour: uint8, minute: uint8, second: uint8, weekDay: uint8)
    requires ValidClock(c)
    ensures ValidClock(SetTimeS(c, t)) && ValidClock(SetDateS(c, d)) && ValidClock(SetAlarmS(c, a))
    ensures ValidClock(SetAlarm(c, weekDay, hour, minute, second))
    ensures SetTime(c, hour, minute, second).time != c.time ==> hour < 24 && minute < 60 && second < 60
    ensures SetAlarm(c, weekDay, hour, minute, second).alarmIrqEnabled
  {
  }

  // ---------------------------------------------------------------------------
  // Moving the alarm

  /**
   The weekday rule of moveRTCAlarm/moveRTCAlarmBySeconds: when the new hour
   is below the old one the byte is incremented (wrapping at 256), and a value
   past Sunday becomes Monday.
   */
  function RolledWeekDay(weekDay: uint8, oldHours: uint8, newHours: uint8): (r: uint8)
    ensures newHours >= oldHours ==> r == weekDay
    ensures newHours < oldHours && 1 <= weekDay <= 7 ==> r == weekDay % 7 + 1
    ensures newHours < oldHours && weekDay == 0 ==> r == RTC_WEEKDAY_MONDAY
    ensures newHours < oldHours && weekDay == 0xFF ==> r == 0
    ensures newHours < oldHours && 7 <= weekDay < 0xFF ==> r == RTC_WEEKDAY_MONDAY
  {
    if oldHours > newHours then
      var next := (weekDay + 1) % 0x100;
      if next > RTC_WEEKDAY_SUNDAY then RTC_WEEKDAY_MONDAY else next
    else weekDay
  }

  /** Seven midnight crossings bring a valid weekday back to itself. */
  lemma {:induction false} RolledWeekDayCycles(weekDay: uint8, k: nat)
    requires 1 <= weekDay <= 7
    ensures 1 <= Roll(weekDay, k) <= 7
    ensures Roll(weekDay, k) == (weekDay - 1 + k) % 7 + 1
  {
    if k > 0 {
      RolledWeekDayCycles(weekDay, k - 1);
      var w := Roll(weekDay, k - 1);
      assert Roll(weekDay, k) == w % 7 + 1;
      ModOfDecomposition(weekDay - 1 + k - 1, (weekDay - 1 + k - 1) / 7, w - 1, 7);
      if w == 7 {
        ModOfDecomposition(weekDay - 1 + k, (weekDay - 1 + k - 1) / 7 + 1, 0, 7);
      } else {
        ModOfDecomposition(weekDay - 1 + k, (weekDay - 1 + k - 1) / 7, w, 7);
      }
    }
  }

  /** `k` successive midnight crossings under the rollover rule. */
  function Roll(weekDay: uint8, k: nat): uint8
    decreases k
  {
    if k == 0 then weekDay else RolledWeekDay(Roll(weekDay, k - 1), 1, 0)
  }

  /** moveRTCAlarm: the alarm read from the clock, moved by h:m:s, written back unvalidated; returns the new alarm time. */
  function MoveAlarm(c: Clock, hours: uint8, minutes: uint8, seconds: uint8): (r: (Clock, RtcTime))
    ensures r.1 == TimestampAfter(c.alarm.alarmTime, hours, minutes, seconds)
    ensures r.0 == c.(alarm := c.alarm.(alarmTime := r.1,
      alarmDateWeekDay := RolledWeekDay(c.alarm.alarmDateWeekDay, c.alarm.alarmTime.hours, r.1.hours)))
    ensures ValidateAlarm(c.alarm) ==> ValidateAlarm(r.0.alarm)
  {
    var alarm := c.alarm;
    var newAlarmTime := TimestampAfter(alarm.alarmTime, hours, minutes, seconds);
    var weekDay := RolledWeekDay(alarm.alarmDateWeekDay, alarm.alarmTime.hours, newAlarmTime.hours);
    (c.(alarm := alarm.(alarmTime := newAlarmTime, alarmDateWeekDay := weekDay)), newAlarmTime)
  }

  /** moveRTCAlarmBySeconds: the same, for an interval given in seconds. */
  function MoveAlarmBySeconds(c: Clock, secondsSinceLastOne: uint32): (r: (Clock, RtcTime))
    ensures r.1 == TimestampAfterSeconds(c.alarm.alarmTime, secondsSinceLastOne)
    ensures r.0 == c.(alarm := c.alarm.(alarmTime := r.1,
      alarmDateWeekDay := RolledWeekDay(c.alarm.alarmDateWeekDay, c.alarm.alarmTime.hours, r.1.hours)))
    ensures ValidateAlarm(c.alarm) ==> ValidateAlarm(r.0.alarm)
  {
    var alarm := c.alarm;
    var newAlarmTime := TimestampAfterSeconds(alarm.alarmTime, secondsSinceLastOne);
    var weekDay := RolledWeekDay(alarm.alarmDateWeekDay, alarm.alarmTime.hours, newAlarmTime.hours);
    (c.(alarm := alarm.(alarmTime := newAlarmTime, alarmDateWeekDay := weekDay)), newAlarmTime)
  }

  /** Position of a valid alarm within the week, in seconds from Monday midnight. */
  function WeekSeconds(a: RtcAlarm): (n: nat)
    requires ValidateAlarm(a)
    ensures n < SECONDS_PER_WEEK
  {
    (a.alarmDateWeekDay - 1) * SECONDS_PER_DAY + SecondsOfDay(a.alarmTime)
  }

  /**
   The hour comparison misses a midnight crossing that lands in the same hour:
   an alarm on Monday 10:30:00 moved by 23:45:00 rings at 10:15:00, still on
   Monday, so it next fires six days and 23:45 later instead of 23:45 later.
   */
  lemma MoveAlarmMissesSameHourMidnight()
    ensures var c := Clock(ZERO_TIME, ZERO_DATE,
                           RtcAlarm(RtcTime(10, 30, 0, 0, 0, 0), WeekdayMatchOnAlarmA, RTC_WEEKDAY_MONDAY), true);
            var moved := MoveAlarm(c, 23, 45, 0).0.alarm;
            && moved.alarmTime.hours == 10 && moved.alarmTime.minutes == 15
            && moved.alarmDateWeekDay == RTC_WEEKDAY_MONDAY
            && WeekSeconds(moved) != (WeekSeconds(c.alarm) + 3600 * 23 + 60 * 45) % SECONDS_PER_WEEK
  {
  }

  /**
   The same rule in moveRTCAlarmBySeconds misses the same-hour crossing, and
   counts at most one of several midnights: from Monday 10:30:00, 85500 s
   later is 10:15:00 still on Monday, and two whole days later is 10:30:00
   still on Monday.
   */
  lemma MoveAlarmBySecondsMissesMidnights()
    ensures var c := Clock(ZERO_TIME, ZERO_DATE,
                           RtcAlarm(RtcTime(10, 30, 0, 0, 0, 0), WeekdayMatchOnAlarmA, RTC_WEEKDAY_MONDAY), true);
            var sameHour := MoveAlarmBySeconds(c, 85500).0.alarm;
            var twoDays := MoveAlarmBySeconds(c, 2 * SECONDS_PER_DAY).0.alarm;
            && sameHour.alarmTime.hours == 10 && sameHour.alarmTime.minutes == 15
            && sameHour.alarmDateWeekDay == RTC_WEEKDAY_MONDAY
            && WeekSeconds(sameHour) != (WeekSeconds(c.alarm) + 85500) % SECONDS_PER_WEEK
            && twoDays.alarmTime.hours == 10 && twoDays.alarmTime.minutes == 30
            && twoDays.alarmDateWeekDay == RTC_WEEKDAY_MONDAY
            && WeekSeconds(twoDays) != (WeekSeconds(c.alarm) + 2 * SECONDS_PER_DAY) % SECONDS_PER_WEEK
  {
  }

  /** A weekday moved on by `days` midnights; a byte outside Monday..Sunday is left as it is. */
  function AdvanceWeekDay(weekDay: uint8, days: nat): (r: uint8)
    ensures 1 <= weekDay <= 7 ==> 1 <= r <= 7 && r - 1 == (weekDay - 1 + days) % 7
    ensures !(1 <= weekDay <= 7) ==> r == weekDay
  {
    if 1 <= weekDay <= 7 then (weekDay - 1 + days) % 7 + 1 else weekDay
  }

  /** The intended rule: advance the weekday by the number of midnights the move crosses. */
  function MoveAlarmCorrected(c: Clock, hours: uint8, minutes: uint8, seconds: uint8): (r: (Clock, RtcTime))
    ensures r.1 == TimestampAfter(c.alarm.alarmTime, hours, minutes, seconds)
    ensures r.0 == c.(alarm := c.alarm.(alarmTime := r.1, alarmDateWeekDay := AdvanceWeekDay(c.alarm.alarmDateWeekDay,
      (TotalSeconds(c.alarm.alarmTime) + 3600 * hours + 60 * minutes + seconds) / SECONDS_PER_DAY)))
  {
    var alarm := c.alarm;
    var newAlarmTime := TimestampAfter(alarm.alarmTime, hours, minutes, seconds);
    var days := (TotalSeconds(alarm.alarmTime) + 3600 * hours + 60 * minutes + seconds) / SECONDS_PER_DAY;
    (c.(alarm := alarm.(alarmTime := newAlarmTime, alarmDateWeekDay := AdvanceWeekDay(alarm.alarmDateWeekDay, days))),
     newAlarmTime)
  }

  /** The intended by-seconds rule: the same time, and the weekday advanced by the midnights crossed. */
  function MoveAlarmBySecondsCorrected(c: Clock, secondsSinceLastOne: uint32): (r: (Clock, RtcTime))
    ensures r.1 == TimestampAfterSeconds(c.alarm.alarmTime, secondsSinceLastOne)
    ensures r.0 == c.(alarm := c.alarm.(alarmTime := r.1, alarmDateWeekDay := AdvanceWeekDay(c.alarm.alarmDateWeekDay,
      (TotalSeconds(c.alarm.alarmTime) + secondsSinceLastOne) / SECONDS_PER_DAY)))
  {
    var alarm := c.alarm;
    var newAlarmTime := TimestampAfterSeconds(alarm.alarmTime, secondsSinceLastOne);
    var days := (TotalSeconds(alarm.alarmTime) + secondsSinceLastOne) / SECONDS_PER_DAY;
    (c.(alarm := alarm.(alarmTime := newAlarmTime, alarmDateWeekDay := AdvanceWeekDay(alarm.alarmDateWeekDay, days))),
     newAlarmTime)
  }

  /**
   Moving a valid alarm to the time `delta` seconds later and advancing its
   weekday by the midnights crossed moves its place in the week by `delta`.
   */
  lemma WeekAdvance(prev: RtcAlarm, moved: RtcAlarm, delta: nat)
    requires ValidateAlarm(prev) && ValidateTime(moved.alarmTime)
    requires SecondsOfDay(moved.alarmTime) == (SecondsOfDay(prev.alarmTime) + delta) % SECONDS_PER_DAY
    requires moved.alarmDateWeekDay
          == AdvanceWeekDay(prev.alarmDateWeekDay, (SecondsOfDay(prev.alarmTime) + delta) / SECONDS_PER_DAY)
    ensures ValidateAlarm(moved)
    ensures WeekSeconds(moved) == (WeekSeconds(prev) + delta) % SECONDS_PER_WEEK
  {
    var total := SecondsOfDay(prev.alarmTime) + delta;
    var days := total / SECONDS_PER_DAY;
    var w := prev.alarmDateWeekDay - 1;
    assert total == days * SECONDS_PER_DAY + total % SECONDS_PER_DAY;
    assert moved.alarmDateWeekDay - 1 == (w + days) % 7;
    var a := w + days;
    assert a == 7 * (a / 7) + a % 7;
    assert WeekSeconds(prev) + delta == a * SECONDS_PER_DAY + total % SECONDS_PER_DAY;
    assert a * SECONDS_PER_DAY == (a / 7) * SECONDS_PER_WEEK + (a % 7) * SECONDS_PER_DAY;
    ModOfDecomposition(WeekSeconds(prev) + delta, a / 7, WeekSeconds(moved), SECONDS_PER_WEEK);
  }

  /** The corrected move keeps the alarm valid and advances its place in the week by exactly the interval. */
  lemma MoveAlarmCorrectedAdvancesWeekSeconds(c: Clock, hours: uint8, minutes: uint8, seconds: uint8)
    requires ValidateAlarm(c.alarm)
    ensures ValidateAlarm(MoveAlarmCorrected(c, hours, minutes, seconds).0.alarm)
    ensures WeekSeconds(MoveAlarmCorrected(c, hours, minutes, seconds).0.alarm)
         == (WeekSeconds(c.alarm) + 3600 * hours + 60 * minutes + seconds) % SECONDS_PER_WEEK
  {
    WeekAdvance(c.alarm, MoveAlarmCorrected(c, hours, minutes, seconds).0.alarm, 3600 * hours + 60 * minutes + seconds);
  }

  /** The same for the corrected by-seconds move, whenever its 32-bit first sum does not wrap. */
  lemma MoveAlarmBySecondsCorrectedAdvancesWeekSeconds(c: Clock, secondsSinceLastOne: uint32)
    requires ValidateAlarm(c.alarm)
    requires c.alarm.alarmTime.seconds + secondsSinceLastOne < UINT32_MODULUS
    ensures ValidateAlarm(MoveAlarmBySecondsCorrected(c, secondsSinceLastOne).0.alarm)
    ensures WeekSeconds(MoveAlarmBySecondsCorrected(c, secondsSinceLastOne).0.alarm)
         == (WeekSeconds(c.alarm) + secondsSinceLastOne) % SECONDS_PER_WEEK
  {
    WeekAdvance(c.alarm, MoveAlarmBySecondsCorrected(c, secondsSinceLastOne).0.alarm, secondsSinceLastOne);
  }

  /**
   Within a move shorter than a day, the new time of day lies before the old one
   exactly when the move crosses midnight; the hours follow that order weakly.
   */
  lemma HoursAcrossMidnight(prev: RtcTime, t: RtcTime, delta: nat)
    requires ValidateTime(prev) && ValidateTime(t) && delta < SECONDS_PER_DAY
    requires SecondsOfDay(t) == (SecondsOfDay(prev) + delta) % SECONDS_PER_DAY
    ensures SecondsOfDay(prev) + delta < SECONDS_PER_DAY ==> t.hours >= prev.hours
    ensures SecondsOfDay(prev) + delta >= SECONDS_PER_DAY ==> t.hours <= prev.hours
  {
    var total := SecondsOfDay(prev) + delta;
    if total < SECONDS_PER_DAY {
      ModOfDecomposition(total, 0, total, SECONDS_PER_DAY);
      assert SecondsOfDay(t) >= SecondsOfDay(prev);
    } else {
      ModOfDecomposition(total, 1, total - SECONDS_PER_DAY, SECONDS_PER_DAY);
      assert SecondsOfDay(t) < SecondsOfDay(prev);
    }
  }

  /**
   For a move shorter than a day, the hour rule and the days-crossed rule give
   the same weekday unless the move crosses midnight and lands in the same hour.
   */
  lemma RolledAgreesWithDaysCrossed(prev: RtcTime, t: RtcTime, delta: nat, weekDay: uint8)
    requires ValidateTime(prev) && ValidateTime(t) && delta < SECONDS_PER_DAY && 1 <= weekDay <= 7
    requires SecondsOfDay(t) == (SecondsOfDay(prev) + delta) % SECONDS_PER_DAY
    ensures RolledWeekDay(weekDay, prev.hours, t.hours)
         != AdvanceWeekDay(weekDay, (SecondsOfDay(prev) + delta) / SECONDS_PER_DAY)
        ==> t.hours == prev.hours && SecondsOfDay(prev) + delta >= SECONDS_PER_DAY
  {
    var total := SecondsOfDay(prev) + delta;
    HoursAcrossMidnight(prev, t, delta);
    if total < SECONDS_PER_DAY {
      ModOfDecomposition(total, 0, total, SECONDS_PER_DAY);
      ModOfDecomposition(weekDay - 1, 0, weekDay - 1, 7);
      assert AdvanceWeekDay(weekDay, total / SECONDS_PER_DAY) == weekDay;
    } else {
      ModOfDecomposition(total, 1, total - SECONDS_PER_DAY, SECONDS_PER_DAY);
      assert AdvanceWeekDay(weekDay, total / SECONDS_PER_DAY) == weekDay % 7 + 1;
    }
  }

  /**
   For a valid alarm and a move shorter than a day, the written and the
   corrected move differ exactly when the move crosses midnight and lands in
   the hour it started from.
   */
  lemma MoveAlarmAgreesUnlessSameHour(c: Clock, hours: uint8, minutes: uint8, seconds: uint8)
    requires ValidateAlarm(c.alarm)
    requires 3600 * hours + 60 * minutes + seconds < SECONDS_PER_DAY
    ensures MoveAlarm(c, hours, minutes, seconds) != MoveAlarmCorrected(c, hours, minutes, seconds) <==>
      && MoveAlarm(c, hours, minutes, seconds).1.hours == c.alarm.alarmTime.hours
      && SecondsOfDay(c.alarm.alarmTime) + 3600 * hours + 60 * minutes + seconds >= SECONDS_PER_DAY
  {
    var t := TimestampAfter(c.alarm.alarmTime, hours, minutes, seconds);
    var total := SecondsOfDay(c.alarm.alarmTime) + 3600 * hours + 60 * minutes + seconds;
    RolledAgreesWithDaysCrossed(c.alarm.alarmTime, t, 3600 * hours + 60 * minutes + seconds, c.alarm.alarmDateWeekDay);
    if total >= SECONDS_PER_DAY {
      ModOfDecomposition(total, 1, total - SECONDS_PER_DAY, SECONDS_PER_DAY);
    }
  }

  /** The same comparison for the by-seconds move. */
  lemma MoveAlarmBySecondsAgreesUnlessSameHour(c: Clock, secondsSinceLastOne: uint32)
    requires ValidateAlarm(c.alarm)
    requires secondsSinceLastOne < SECONDS_PER_DAY
    ensures MoveAlarmBySeconds(c, secondsSinceLastOne) != MoveAlarmBySecondsCorrected(c, secondsSinceLastOne) <==>
      && MoveAlarmBySeconds(c, secondsSinceLastOne).1.hours == c.alarm.alarmTime.hours
      && SecondsOfDay(c.alarm.alarmTime) + secondsSinceLastOne >= SECONDS_PER_DAY
  {
    var t := TimestampAfterSeconds(c.alarm.alarmTime, secondsSinceLastOne);
    var total := SecondsOfDay(c.alarm.alarmTime) + secondsSinceLastOne;
    RolledAgreesWithDaysCrossed(c.alarm.alarmTime, t, secondsSinceLastOne, c.alarm.alarmDateWeekDay);
    if total >= SECONDS_PER_DAY {
      ModOfDecomposition(total, 1, total - SECONDS_PER_DAY, SECONDS_PER_DAY);
    }
  }
}
