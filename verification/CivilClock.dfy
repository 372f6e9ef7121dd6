/** The date arithmetic of the wall clock (crates/refyard-host/src/clock.rs, `civil_from_days`)
    against the Gregorian calendar written out month by month. */
module CivilClock {

  datatype Date = Date(year: int, month: nat, day: nat)

  // ------------------------------------------------------------- the calendar

  /** The leap rule of RFC 3339, appendix C. */
  predicate IsLeap(year: int) { year % 4 == 0 && (year % 100 != 0 || year % 400 == 0) }

  /** The day limits of section 5.7 of RFC 3339. */
  function DaysInMonth(year: int, month: nat): (days: nat)
    requires 1 <= month <= 12
  {
    if month == 2 then (if IsLeap(year) then 29 else 28)
    else if month == 4 || month == 6 || month == 9 || month == 11 then 30 else 31
  }

  predicate Valid(date: Date) {
    1 <= date.month <= 12 && 1 <= date.day <= DaysInMonth(date.year, date.month)
  }

  function NextDay(date: Date): Date
    requires Valid(date)
  {
    if date.day < DaysInMonth(date.year, date.month) then Date(date.year, date.month, date.day + 1)
    else if date.month < 12 then Date(date.year, date.month + 1, 1)
    else Date(date.year + 1, 1, 1)
  }

  predicate Earlier(a: Date, b: Date) {
    a.year < b.year || (a.year == b.year && (a.month < b.month || (a.month == b.month && a.day < b.day)))
  }

  /** Days from the first day of year 1 to the first day of `year`. */
  function DaysBeforeYear(year: int): int {
    365 * (year - 1) + (year - 1) / 4 - (year - 1) / 100 + (year - 1) / 400
  }

  function DaysBeforeMonth(year: int, month: nat): nat
    requires 1 <= month <= 13
  {
    if month == 1 then 0 else DaysBeforeMonth(year, month - 1) + DaysInMonth(year, month - 1)
  }

  /** Days from 1970-01-01 to a date. */
  function DayNumber(date: Date): int
    requires Valid(date)
  {
    DaysBeforeYear(date.year) - DaysBeforeYear(1970) + DaysBeforeMonth(date.year, date.month) + date.day - 1
  }

  // ------------------------------------------------------------- the program

  /** Signed division as the program's integers do it: towards zero. */
  function Truncated(a: int, b: int): int
    requires b > 0
  {
    if a >= 0 then a / b else -((-a) / b)
  }

  function Era(shifted: int): int {
    if shifted >= 0 then Truncated(shifted, 146097) else Truncated(shifted - 146096, 146097)
  }

  function DayOfEra(shifted: int): int { shifted - Era(shifted) * 146097 }

  function YearOfEra(dayOfEra: int): int {
    Truncated(dayOfEra - Truncated(dayOfEra, 1460) + Truncated(dayOfEra, 36524) - Truncated(dayOfEra, 146096), 365)
  }

  function DayOfYear(dayOfEra: int, yearOfEra: int): int {
    dayOfEra - (365 * yearOfEra + Truncated(yearOfEra, 4) - Truncated(yearOfEra, 100))
  }

  function ShiftedMonth(dayOfYear: int): int { Truncated(5 * dayOfYear + 2, 153) }

  function DayOfMonth(dayOfYear: int, shiftedMonth: int): int {
    dayOfYear - Truncated(153 * shiftedMonth + 2, 5) + 1
  }

  function Month(shiftedMonth: int): int { if shiftedMonth < 10 then shiftedMonth + 3 else shiftedMonth - 9 }

  /** `civil_from_days`, before its two casts to `u32`; `CastsAreExact` shows they lose nothing. */
  function Civil(days: int): (civil: (int, int, int)) {
    var shifted := days + 719468;
    var dayOfEra := DayOfEra(shifted);
    var yearOfEra := YearOfEra(dayOfEra);
    var year := yearOfEra + Era(shifted) * 400;
    var dayOfYear := DayOfYear(dayOfEra, yearOfEra);
    var shiftedMonth := ShiftedMonth(dayOfYear);
    var month := Month(shiftedMonth);
    (if month <= 2 then year + 1 else year, month, DayOfMonth(dayOfYear, shiftedMonth))
  }

  function AsU32(n: int): (cast: nat) { n % 0x1_0000_0000 }

  function CivilFromDays(days: int): Date {
    Date(Civil(days).0, AsU32(Civil(days).1), AsU32(Civil(days).2))
  }

  // ---------------------------------------------------- each step of the program

  /** The two-branch division is a floor division. */
  lemma EraIsFloor(shifted: int)
    ensures Era(shifted) == shifted / 146097 && DayOfEra(shifted) == shifted % 146097
  {
    if shifted < 0 {
      var n := -(shifted - 146096);
      assert shifted == -(n / 146097) * 146097 + (146096 - n % 146097);
    }
  }

  /** Days of a 400-year era before its `year`th year, years counted from March. */
  function EraYearStart(year: int): int { 365 * year + year / 4 - year / 100 + year / 400 }

  /** Every day of an era is a century, a four-year block, a year and a day in it. */
  lemma EraDigits(dayOfEra: nat) returns (c: nat, f: nat, g: nat, h: nat)
    requires dayOfEra < 146097
    ensures dayOfEra == 36524 * c + 1461 * f + 365 * g + h
    ensures c <= 3 && f <= 24 && g <= 3 && h <= 365
    ensures h == 365 ==> g == 3 && (f == 24 ==> c == 3)
  {
    c := if dayOfEra / 36524 == 4 then 3 else dayOfEra / 36524;
    var inCentury := dayOfEra - 36524 * c;
    f := inCentury / 1461;
    var inBlock := inCentury - 1461 * f;
    g := if inBlock / 365 == 4 then 3 else inBlock / 365;
    h := inBlock - 365 * g;
  }

  /** The division formula finds the year whose days contain the day. */
  lemma YearOfEraIsExact(dayOfEra: nat)
    requires dayOfEra < 146097
    ensures var year := YearOfEra(dayOfEra);
            && 0 <= year < 400
            && EraYearStart(year) <= dayOfEra < EraYearStart(year + 1)
            && DayOfYear(dayOfEra, year) == dayOfEra - EraYearStart(year)
  {
    var c, f, g, h := EraDigits(dayOfEra);
    FormulaOnDigits(dayOfEra, c, f, g, h);
    EraYearOnDigits(c, f, g);
  }

  lemma FormulaOnDigits(dayOfEra: nat, c: nat, f: nat, g: nat, h: nat)
    requires dayOfEra == 36524 * c + 1461 * f + 365 * g + h && dayOfEra < 146097
    requires c <= 3 && f <= 24 && g <= 3 && h <= 365
    requires h == 365 ==> g == 3 && (f == 24 ==> c == 3)
    ensures YearOfEra(dayOfEra) == 100 * c + 4 * f + g
  {
    var rest := Quotients(dayOfEra, c, f, g, h);
    WholeYears(100 * c + 4 * f + g, rest);
  }

  /** The three corrections take away all but whole years. */
  lemma Quotients(dayOfEra: nat, c: nat, f: nat, g: nat, h: nat) returns (rest: nat)
    requires dayOfEra == 36524 * c + 1461 * f + 365 * g + h && dayOfEra < 146097
    requires c <= 3 && f <= 24 && g <= 3 && h <= 365
    requires h == 365 ==> g == 3 && (f == 24 ==> c == 3)
    ensures rest <= 364
    ensures dayOfEra - dayOfEra / 1460 + dayOfEra / 36524 - dayOfEra / 146096 == 365 * (100 * c + 4 * f + g) + rest
  {
    var carry := if 24 * c + f + 365 * g + h < 1460 then 0 else 1;
    assert dayOfEra / 1460 == 25 * c + f + carry;
    assert dayOfEra / 36524 - dayOfEra / 146096 == c;
    rest := h - carry;
  }

  lemma WholeYears(years: nat, rest: nat)
    requires rest <= 364
    ensures (365 * years + rest) / 365 == years
  {}

  lemma EraYearOnDigits(c: nat, f: nat, g: nat)
    requires c <= 3 && f <= 24 && g <= 3
    ensures var year := 100 * c + 4 * f + g;
            && EraYearStart(year) == 36524 * c + 1461 * f + 365 * g
            && EraYearStart(year + 1) == EraYearStart(year) + 365 + (if g == 3 && (f < 24 || c == 3) then 1 else 0)
  {
    var year := 100 * c + 4 * f + g;
    assert year / 4 == 25 * c + f && year / 100 == c && year / 400 == 0;
    if g < 3 {
      assert (year + 1) / 4 == 25 * c + f && (year + 1) / 100 == c && (year + 1) / 400 == 0;
    } else {
      assert (year + 1) / 4 == 25 * c + f + 1;
      assert (year + 1) / 100 == if f == 24 then c + 1 else c;
      assert (year + 1) / 400 == if f == 24 && c == 3 then 1 else 0;
    }
  }

  /** Days before the `month`th month of a year counted from March. */
  function MarchMonthStart(month: int): int { (153 * month + 2) / 5 }

  lemma MonthIsExact(dayOfYear: nat)
    requires dayOfYear <= 365
    ensures var month := ShiftedMonth(dayOfYear);
            && 0 <= month < 12
            && MarchMonthStart(month) <= dayOfYear < MarchMonthStart(month + 1)
            && DayOfMonth(dayOfYear, month) == dayOfYear - MarchMonthStart(month) + 1
  {}

  // ------------------------------------------------- the two calendars agree

  lemma MonthTable(year: int)
    ensures DaysBeforeMonth(year, 1) == 0 && DaysBeforeMonth(year, 2) == 31
    ensures forall month :: 3 <= month <= 13 ==>
              DaysBeforeMonth(year, month) == MarchMonthStart(month - 3) + 59 + (if IsLeap(year) then 1 else 0)
  {
    hide IsLeap;
    assert DaysBeforeMonth(year, 2) == 31;
    assert DaysBeforeMonth(year, 3) == 59 + (if IsLeap(year) then 1 else 0);
    assert DaysBeforeMonth(year, 5) == DaysBeforeMonth(year, 3) + 61;
    assert DaysBeforeMonth(year, 7) == DaysBeforeMonth(year, 5) + 61;
    assert DaysBeforeMonth(year, 9) == DaysBeforeMonth(year, 7) + 62;
    assert DaysBeforeMonth(year, 11) == DaysBeforeMonth(year, 9) + 61;
    assert DaysBeforeMonth(year, 13) == DaysBeforeMonth(year, 11) + 61;
  }

  /** A year counted from March ends with the February of the next calendar year. */
  lemma MarchYearLength(year: int)
    ensures EraYearStart(year + 1) == EraYearStart(year) + 365 + (if IsLeap(year + 1) then 1 else 0)
    ensures DaysBeforeYear(year + 1) == EraYearStart(year)
  {
    NextMultiple(year, 4);
    NextMultiple(year, 100);
    NextMultiple(year, 400);
    var four, century := (year + 1) / 4, (year + 1) / 100;
    assert (year + 1) % 100 == 0 ==> (year + 1) % 4 == 0;
    assert (year + 1) % 400 == 0 ==> (year + 1) % 100 == 0;
  }

  lemma NextMultiple(n: int, m: int)
    requires m == 4 || m == 100 || m == 400
    ensures (n + 1) / m == n / m + (if (n + 1) % m == 0 then 1 else 0)
  {}

  lemma YearsRepeat(year: int, era: int)
    ensures EraYearStart(year + 400 * era) == EraYearStart(year) + 146097 * era
  {
    assert (year + 400 * era) / 4 == year / 4 + 100 * era;
    assert (year + 400 * era) / 100 == year / 100 + 4 * era;
    assert (year + 400 * era) / 400 == year / 400 + era;
  }

  /** A month counted from March, read off the ordinary calendar. */
  lemma MonthAgrees(year: int, dayOfYear: nat)
    requires dayOfYear < 365 + (if IsLeap(year + 1) then 1 else 0)
    ensures var shiftedMonth := ShiftedMonth(dayOfYear);
            var month, day := Month(shiftedMonth), DayOfMonth(dayOfYear, shiftedMonth);
            var calendarYear := if month <= 2 then year + 1 else year;
            && 1 <= month <= 12
            && 1 <= day <= DaysInMonth(calendarYear, month)
            && DaysBeforeYear(calendarYear) + DaysBeforeMonth(calendarYear, month) + day - 1
               == EraYearStart(year) + dayOfYear - 306
  {
    MonthIsExact(dayOfYear);
    MarchYearLength(year);
    MarchYearLength(year - 1);
    MonthTable(year);
    MonthTable(year + 1);
    hide IsLeap, ShiftedMonth, DayOfMonth, EraYearStart, DaysBeforeYear, DaysBeforeMonth;
  }

  /** The year found, counted from March, contains the day. */
  lemma MarchYearContains(shifted: int)
    ensures var yearOfEra := YearOfEra(DayOfEra(shifted));
            var year := yearOfEra + Era(shifted) * 400;
            var dayOfYear := DayOfYear(DayOfEra(shifted), yearOfEra);
            && 0 <= dayOfYear < 365 + (if IsLeap(year + 1) then 1 else 0)
            && EraYearStart(year) + dayOfYear == shifted
  {
    hide Era, DayOfEra, YearOfEra, DayOfYear, IsLeap, EraYearStart, DaysBeforeYear;
    EraIsFloor(shifted);
    var era, dayOfEra := Era(shifted), DayOfEra(shifted);
    assert shifted == dayOfEra + era * 146097;
    YearOfEraIsExact(dayOfEra);
    var yearOfEra := YearOfEra(dayOfEra);
    YearsRepeat(yearOfEra, era);
    YearsRepeat(yearOfEra + 1, era);
    MarchYearLength(yearOfEra + 400 * era);
  }

  lemma CivilIsExact(days: int)
    ensures var (year, month, day) := Civil(days);
            && 1 <= month <= 12
            && 1 <= day <= DaysInMonth(year, month)
            && DaysBeforeYear(year) - DaysBeforeYear(1970) + DaysBeforeMonth(year, month) + day - 1 == days
  {
    hide IsLeap, Era, DayOfEra, YearOfEra, DayOfYear, ShiftedMonth, DayOfMonth, Month, EraYearStart, DaysBeforeYear, DaysBeforeMonth, DaysInMonth;
    var shifted := days + 719468;
    var dayOfEra := DayOfEra(shifted);
    var yearOfEra := YearOfEra(dayOfEra);
    MarchYearContains(shifted);
    MonthAgrees(yearOfEra + Era(shifted) * 400, DayOfYear(dayOfEra, yearOfEra));
    EpochYear();
  }

  lemma EpochYear()
    ensures DaysBeforeYear(1970) == 719468 - 306
  {}

  // ------------------------------------------------------------- main results

  /** The casts to `u32` lose nothing: month and day are already small and positive. */
  lemma CastsAreExact(days: int)
    ensures var (year, month, day) := Civil(days); 1 <= month <= 12 && 1 <= day <= 31
    ensures var (year, month, day) := Civil(days);
            CivilFromDays(days).year == year && CivilFromDays(days).month == month && CivilFromDays(days).day == day
  {
    hide Civil, DaysBeforeYear, DaysBeforeMonth;
    CivilIsExact(days);
  }

  /** Every day, before or after the epoch, becomes a real calendar date, and counting days to
      that date gives the day back. */
  lemma DayOfCivil(days: int)
    ensures Valid(CivilFromDays(days))
    ensures DayNumber(CivilFromDays(days)) == days
  {
    hide Civil, CivilFromDays, DaysBeforeYear, DaysBeforeMonth, DaysInMonth;
    CivilIsExact(days);
    CastsAreExact(days);
  }

  lemma DaysBeforeMonthGrows(year: int, a: nat, b: nat)
    requires 1 <= a < b <= 13
    ensures DaysBeforeMonth(year, a) + DaysInMonth(year, a) <= DaysBeforeMonth(year, b)
    decreases b
  {
    if a + 1 < b {
      DaysBeforeMonthGrows(year, a, b - 1);
    }
  }

  lemma YearHoldsItsDates(date: Date)
    requires Valid(date)
    ensures 0 <= DayNumber(date) - (DaysBeforeYear(date.year) - DaysBeforeYear(1970))
              < DaysBeforeYear(date.year + 1) - DaysBeforeYear(date.year)
  {
    DaysBeforeMonthGrows(date.year, date.month, 13);
    MonthTable(date.year);
    MarchYearLength(date.year);
    MarchYearLength(date.year - 1);
    hide EraYearStart, DaysBeforeYear, DaysBeforeMonth, DaysInMonth, IsLeap;
  }

  lemma YearsGrow(a: int, b: int)
    requires a < b
    ensures DaysBeforeYear(a + 1) <= DaysBeforeYear(b)
  {
    assert a <= b - 1;
  }

  /** Day numbers are ordered as dates are. */
  lemma EarlierDateEarlierDay(a: Date, b: Date)
    requires Valid(a) && Valid(b) && Earlier(a, b)
    ensures DayNumber(a) < DayNumber(b)
  {
    if a.year < b.year {
      YearHoldsItsDates(a);
      YearHoldsItsDates(b);
      YearsGrow(a.year, b.year);
      hide DayNumber, DaysBeforeYear;
    } else if a.month < b.month {
      DaysBeforeMonthGrows(a.year, a.month, b.month);
      hide DaysBeforeYear, DaysBeforeMonth, DaysInMonth;
    }
  }

  /** `civil_from_days` inverts the day count on every calendar date. */
  lemma CivilOfDay(date: Date)
    requires Valid(date)
    ensures CivilFromDays(DayNumber(date)) == date
  {
    hide CivilFromDays, DayNumber, Valid;
    var back := CivilFromDays(DayNumber(date));
    DayOfCivil(DayNumber(date));
    if Earlier(back, date) {
      EarlierDateEarlierDay(back, date);
    } else if Earlier(date, back) {
      EarlierDateEarlierDay(date, back);
    }
  }

  lemma NextDayCounts(date: Date)
    requires Valid(date)
    ensures Valid(NextDay(date))
    ensures DayNumber(NextDay(date)) == DayNumber(date) + 1
  {
    if date.month == 12 {
      MonthTable(date.year);
      MarchYearLength(date.year);
      MarchYearLength(date.year - 1);
    }
    hide EraYearStart, DaysBeforeYear, IsLeap;
  }

  lemma EpochIsDayZero()
    ensures Valid(Date(1970, 1, 1)) && DayNumber(Date(1970, 1, 1)) == 0
  {}

  /** Day 0 is 1970-01-01, and the day after a day is the calendar's next date. */
  lemma DaysFollowTheCalendar(days: int)
    ensures CivilFromDays(0) == Date(1970, 1, 1)
    ensures Valid(CivilFromDays(days))
    ensures CivilFromDays(days + 1) == NextDay(CivilFromDays(days))
  {
    hide CivilFromDays, DayNumber, Valid, NextDay;
    EpochIsDayZero();
    CivilOfDay(Date(1970, 1, 1));
    DayOfCivil(days);
    NextDayCounts(CivilFromDays(days));
    CivilOfDay(NextDay(CivilFromDays(days)));
  }

  /** Dates come in the order of their days. */
  lemma CivilKeepsOrder(a: int, b: int)
    ensures Earlier(CivilFromDays(a), CivilFromDays(b)) <==> a < b
  {
    hide CivilFromDays, DayNumber, Valid;
    var x, y := CivilFromDays(a), CivilFromDays(b);
    DayOfCivil(a);
    DayOfCivil(b);
    if Earlier(x, y) {
      EarlierDateEarlierDay(x, y);
    } else if Earlier(y, x) {
      EarlierDateEarlierDay(y, x);
    }
  }

  // ------------------------------------------------------------- machine integers

  predicate InI64(n: int) { -0x8000_0000_0000_0000 <= n < 0x8000_0000_0000_0000 }

  /** The steps of the split into days and time of day, and of finding the era. */
  predicate EraStepsFit(millis: int) {
    var days := millis / 1000 / 86400;
    var shifted := days + 719468;
    var era := Era(shifted);
    && InI64(millis / 1000) && InI64(millis % 1000) && InI64(days) && InI64(millis / 1000 % 86400)
    && InI64(shifted) && (shifted < 0 ==> InI64(shifted - 146096))
    && InI64(era) && InI64(era * 146097) && InI64(DayOfEra(shifted)) && InI64(era * 400)
    && InI64(YearOfEra(DayOfEra(shifted)) + era * 400) && InI64(YearOfEra(DayOfEra(shifted)) + era * 400 + 1)
  }

  /** The steps of finding the year in the era and the day in the year. */
  predicate YearStepsFit(dayOfEra: int) {
    var year := YearOfEra(dayOfEra);
    var early, late := dayOfEra - dayOfEra / 1460, dayOfEra / 36524;
    && InI64(early) && InI64(early + late) && InI64(early + late - dayOfEra / 146096) && InI64(year)
    && InI64(365 * year) && InI64(365 * year + year / 4) && InI64(365 * year + year / 4 - year / 100)
    && InI64(DayOfYear(dayOfEra, year))
  }

  /** The steps of finding the month and the day in it. */
  predicate MonthStepsFit(dayOfYear: int) {
    var month := ShiftedMonth(dayOfYear);
    && InI64(5 * dayOfYear) && InI64(5 * dayOfYear + 2) && InI64(month) && InI64(153 * month) && InI64(153 * month + 2)
    && InI64(dayOfYear - Truncated(153 * month + 2, 5)) && InI64(DayOfMonth(dayOfYear, month))
    && InI64(month + 3) && InI64(month - 9)
  }

  lemma YearStepsAreSmall(dayOfEra: nat)
    requires dayOfEra < 146097
    ensures YearStepsFit(dayOfEra)
    ensures 0 <= YearOfEra(dayOfEra) < 400 && 0 <= DayOfYear(dayOfEra, YearOfEra(dayOfEra)) <= 365
  {
    YearOfEraIsExact(dayOfEra);
    MarchYearLength(YearOfEra(dayOfEra));
    hide YearOfEra, DayOfYear, EraYearStart, IsLeap, DaysBeforeYear;
  }

  /** No step overflows, whatever 64-bit instant it is given. */
  lemma NoStepOverflows(millis: int)
    requires InI64(millis)
    ensures var dayOfEra := DayOfEra(millis / 1000 / 86400 + 719468);
            && EraStepsFit(millis)
            && YearStepsFit(dayOfEra)
            && MonthStepsFit(DayOfYear(dayOfEra, YearOfEra(dayOfEra)))
  {
    hide Era, DayOfEra, YearOfEra, DayOfYear, YearStepsFit;
    var shifted := millis / 1000 / 86400 + 719468;
    EraIsFloor(shifted);
    var dayOfEra := DayOfEra(shifted);
    YearStepsAreSmall(dayOfEra);
    MonthIsExact(DayOfYear(dayOfEra, YearOfEra(dayOfEra)));
  }
}
