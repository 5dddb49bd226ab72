/** Calendar dates as day numbers (icecreme/builtins.c): the proleptic Gregorian calendar, any year. */
module CivilDate {
  datatype Date = Date(year: int, month: int, day: int)

  // ---- the calendar

  predicate IsLeap(y: int) {
    y % 4 == 0 && (y % 100 != 0 || y % 400 == 0)
  }

  function DaysInMonth(y: int, m: int): int {
    if m == 2 then (if IsLeap(y) then 29 else 28)
    else if m == 4 || m == 6 || m == 9 || m == 11 then 30
    else 31
  }

  predicate ValidDate(t: Date) {
    1 <= t.month <= 12 && 1 <= t.day <= DaysInMonth(t.year, t.month)
  }

  function NextDate(t: Date): Date {
    if t.day < DaysInMonth(t.year, t.month) then t.(day := t.day + 1)
    else if t.month < 12 then Date(t.year, t.month + 1, 1)
    else Date(t.year + 1, 1, 1)
  }

  function PreviousDate(t: Date): Date {
    if t.day > 1 then t.(day := t.day - 1)
    else if t.month > 1 then Date(t.year, t.month - 1, DaysInMonth(t.year, t.month - 1))
    else Date(t.year - 1, 12, 31)
  }

  predicate DateBefore(s: Date, t: Date) {
    s.year < t.year || (s.year == t.year && (s.month < t.month || (s.month == t.month && s.day < t.day)))
  }

  const EPOCH := Date(1970, 1, 1)

  // ---- the formula

  // C's division cuts off toward zero.
  function CDiv(a: int, b: int): int
    requires b > 0
  {
    if a >= 0 then a / b else -(-a / b)
  }

  function DaysFromCivil(t: Date): int {
    var y := if t.month <= 2 then t.year - 1 else t.year;
    var era := CDiv(if y >= 0 then y else y - 399, 400);
    var yoe := y - era * 400;
    var doy := CDiv(153 * (t.month + (if t.month > 2 then -3 else 9)) + 2, 5) + t.day - 1;
    var doe := yoe * 365 + CDiv(yoe, 4) - CDiv(yoe, 100) + doy;
    era * 146097 + doe - 719468
  }

  // ---- years that start in March

  function MarchYear(t: Date): int {
    if t.month <= 2 then t.year - 1 else t.year
  }

  function DayOfMarchYear(m: int, d: int): int {
    (153 * (if m > 2 then m - 3 else m + 9) + 2) / 5 + d - 1
  }

  function DaysBeforeMarchYear(y: int): int {
    365 * y + y / 4 - y / 100 + y / 400
  }

  lemma EraIsFloor(y: int)
    ensures CDiv(if y >= 0 then y else y - 399, 400) == y / 400
  {
  }

  lemma FourCenturies(e: int, r: int)
    requires 0 <= r < 400
    ensures DaysBeforeMarchYear(400 * e + r) == e * 146097 + r * 365 + r / 4 - r / 100
  {
    assert (400 * e + r) / 4 == 100 * e + r / 4;
    assert (400 * e + r) / 100 == 4 * e + r / 100;
    assert (400 * e + r) / 400 == e;
  }

  lemma DaysByMarchYear(t: Date)
    requires 1 <= t.month <= 12
    ensures DaysFromCivil(t) == DaysBeforeMarchYear(MarchYear(t)) + DayOfMarchYear(t.month, t.day) - 719468
  {
    var y := MarchYear(t);
    EraIsFloor(y);
    FourCenturies(y / 400, y % 400);
  }

  // A March year has a leap day at its end if the next civil year is a leap year.
  lemma MarchYearLength(y: int)
    ensures DaysBeforeMarchYear(y + 1) == DaysBeforeMarchYear(y) + (if IsLeap(y + 1) then 366 else 365)
  {
    assert (y + 1) / 4 == y / 4 + (if (y + 1) % 4 == 0 then 1 else 0);
    assert (y + 1) / 100 == y / 100 + (if (y + 1) % 100 == 0 then 1 else 0);
    assert (y + 1) / 400 == y / 400 + (if (y + 1) % 400 == 0 then 1 else 0);
  }

  lemma MonthLengths(t: Date)
    requires ValidDate(t) && t.day == DaysInMonth(t.year, t.month) && t.month != 2
    ensures DayOfMarchYear(t.month, t.day) + 1 == DayOfMarchYear(if t.month < 12 then t.month + 1 else 1, 1)
  {
  }

  // ---- main results

  lemma EpochIsDayZero()
    ensures DaysFromCivil(EPOCH) == 0
  {
  }

  // The next day has the next number: across month ends, leap days and centuries, before and after year 0.
  lemma NextDayNextNumber(t: Date)
    requires ValidDate(t)
    ensures ValidDate(NextDate(t)) && DaysFromCivil(NextDate(t)) == DaysFromCivil(t) + 1
  {
    var u := NextDate(t);
    assert ValidDate(u);
    DaysByMarchYear(t);
    DaysByMarchYear(u);
    hide DaysFromCivil, DaysBeforeMarchYear, DayOfMarchYear, IsLeap;
    if t.day < DaysInMonth(t.year, t.month) {
      NextInMonth(t.month, t.day);
    } else if t.month == 2 {
      MarchYearLength(MarchYear(t));
      FebruaryEnds(t.day);
    } else {
      MonthLengths(t);
    }
  }

  lemma NextInMonth(m: int, d: int)
    ensures DayOfMarchYear(m, d + 1) == DayOfMarchYear(m, d) + 1
  {
  }

  lemma FebruaryEnds(d: int)
    ensures DayOfMarchYear(2, d) == 336 + d && DayOfMarchYear(3, 1) == 0
  {
  }

  lemma PreviousThenNext(t: Date)
    requires ValidDate(t)
    ensures ValidDate(PreviousDate(t)) && NextDate(PreviousDate(t)) == t
  {
  }

  // Every day number is the number of a date.
  lemma {:induction false} EveryNumberIsADate(n: int) returns (t: Date)
    ensures ValidDate(t) && DaysFromCivil(t) == n
    decreases if n < 0 then -n else n
  {
    hide DaysFromCivil;
    if n == 0 {
      t := EPOCH;
      EpochIsDayZero();
    } else if n > 0 {
      var before := EveryNumberIsADate(n - 1);
      NextDayNextNumber(before);
      t := NextDate(before);
    } else {
      var after := EveryNumberIsADate(n + 1);
      PreviousThenNext(after);
      t := PreviousDate(after);
      NextDayNextNumber(t);
    }
  }

  lemma DayOfMarchYearBounds(t: Date)
    requires ValidDate(t)
    ensures 0 <= DayOfMarchYear(t.month, t.day)
    ensures DayOfMarchYear(t.month, t.day) < DaysBeforeMarchYear(MarchYear(t) + 1) - DaysBeforeMarchYear(MarchYear(t))
  {
    MarchYearLength(MarchYear(t));
    hide DaysBeforeMarchYear;
  }

  lemma MarchYearsAscend(y: int, z: int)
    requires y <= z
    ensures DaysBeforeMarchYear(y) <= DaysBeforeMarchYear(z)
  {
  }

  // Dates in order have numbers in order, so no two dates share one.
  lemma DaysFollowDates(s: Date, t: Date)
    requires ValidDate(s) && ValidDate(t)
    ensures DaysFromCivil(s) < DaysFromCivil(t) <==> DateBefore(s, t)
    ensures DaysFromCivil(s) == DaysFromCivil(t) <==> s == t
  {
    if DateBefore(s, t) {
      Ascending(s, t);
    } else if DateBefore(t, s) {
      Ascending(t, s);
    } else {
      assert s == t;
    }
  }

  lemma Ascending(s: Date, t: Date)
    requires ValidDate(s) && ValidDate(t) && DateBefore(s, t)
    ensures DaysFromCivil(s) < DaysFromCivil(t)
  {
    DaysByMarchYear(s);
    DaysByMarchYear(t);
    DayOfMarchYearBounds(s);
    DayOfMarchYearBounds(t);
    hide DaysFromCivil, DaysBeforeMarchYear;
    if MarchYear(s) < MarchYear(t) {
      MarchYearsAscend(MarchYear(s) + 1, MarchYear(t));
    } else {
      SameMarchYear(s, t);
    }
  }

  lemma SameMarchYear(s: Date, t: Date)
    requires ValidDate(s) && ValidDate(t) && DateBefore(s, t) && MarchYear(s) >= MarchYear(t)
    ensures MarchYear(s) == MarchYear(t) && DayOfMarchYear(s.month, s.day) < DayOfMarchYear(t.month, t.day)
  {
  }

  // ---- date and time

  datatype Moment = Moment(date: Date, hour: int, minute: int, second: int)

  predicate ValidMoment(t: Moment) {
    ValidDate(t.date) && 0 <= t.hour < 24 && 0 <= t.minute < 60 && 0 <= t.second < 60
  }

  predicate MomentBefore(s: Moment, t: Moment) {
    || DateBefore(s.date, t.date)
    || (s.date == t.date
        && (s.hour < t.hour
            || (s.hour == t.hour && (s.minute < t.minute || (s.minute == t.minute && s.second < t.second)))))
  }

  // tm_to_epoch_utc
  function EpochSeconds(t: Moment): int {
    DaysFromCivil(t.date) * 86400 + t.hour * 3600 + t.minute * 60 + t.second
  }

  lemma SecondsFollowTime(s: Moment, t: Moment)
    requires ValidMoment(s) && ValidMoment(t)
    ensures EpochSeconds(s) < EpochSeconds(t) <==> MomentBefore(s, t)
    ensures EpochSeconds(s) == EpochSeconds(t) <==> s == t
  {
    DaysFollowDates(s.date, t.date);
    DaysFollowDates(t.date, s.date);
    assert DateBefore(s.date, t.date) || s.date == t.date || DateBefore(t.date, s.date);
    hide DaysFromCivil, DateBefore, ValidDate;
  }

  function NextMoment(t: Moment): Moment {
    if t.second < 59 then t.(second := t.second + 1)
    else if t.minute < 59 then t.(minute := t.minute + 1, second := 0)
    else if t.hour < 23 then t.(hour := t.hour + 1, minute := 0, second := 0)
    else Moment(NextDate(t.date), 0, 0, 0)
  }

  // 1970 starts at 0, and every second adds one, across the ends of minutes, hours and days.
  lemma NextSecondAddsOne(t: Moment)
    requires ValidMoment(t)
    ensures ValidMoment(NextMoment(t)) && EpochSeconds(NextMoment(t)) == EpochSeconds(t) + 1
    ensures EpochSeconds(Moment(EPOCH, 0, 0, 0)) == 0
  {
    EpochIsDayZero();
    NextDayNextNumber(t.date);
    hide DaysFromCivil, NextDate, ValidDate;
  }
}
