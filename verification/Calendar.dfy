/** The UTC dates that name the log files, crates/calliope-cli/src/canary/record.rs: days since 1970-01-01 turned into
    the proleptic Gregorian calendar (section 3.2.1 of ISO 8601:2004). */
module Calendar {
  import opened Prelude

  datatype Date = Date(year: nat, month: nat, day: nat)

  // ----- the calendar itself -----

  predicate IsLeap(year: nat) {
    year % 4 == 0 && (year % 100 != 0 || year % 400 == 0)
  }

  function DaysInMonth(year: nat, month: nat): nat {
    if month == 2 then (if IsLeap(year) then 29 else 28)
    else if month == 4 || month == 6 || month == 9 || month == 11 then 30 else 31
  }

  predicate IsDate(d: Date) {
    1 <= d.month <= 12 && 1 <= d.day <= DaysInMonth(d.year, d.month)
  }

  function NextDate(d: Date): Date {
    if d.day < DaysInMonth(d.year, d.month) then d.(day := d.day + 1)
    else if d.month < 12 then Date(d.year, d.month + 1, 1)
    else Date(d.year + 1, 1, 1)
  }

  // ----- the conversion -----

  function YearOfEra(dayOfEra: nat): int {
    (dayOfEra - dayOfEra / 1_460 + dayOfEra / 36_524 - dayOfEra / 146_096) / 365
  }

  /** Days of an era before its year y, the years running from March. */
  function DaysBefore(y: nat): int {
    365 * y + y / 4 - y / 100
  }

  /** The date of a day of a year that starts in March. */
  function MonthAndDay(dayOfYear: int): (int, int) {
    var monthIndex := (5 * dayOfYear + 2) / 153;
    var day := dayOfYear - (153 * monthIndex + 2) / 5 + 1;
    (if monthIndex < 10 then monthIndex + 3 else monthIndex - 9, day)
  }

  /** Every difference the conversion takes of unsigned numbers is non-negative. */
  lemma NoUnderflow(dayOfEra: nat)
    requires dayOfEra < 146_097
    ensures dayOfEra >= dayOfEra / 1_460
    ensures dayOfEra - dayOfEra / 1_460 + dayOfEra / 36_524 >= dayOfEra / 146_096
    ensures 0 <= YearOfEra(dayOfEra) <= 399
    ensures 0 <= DaysBefore(YearOfEra(dayOfEra)) <= dayOfEra
    ensures var dayOfYear := dayOfEra - DaysBefore(YearOfEra(dayOfEra));
            var monthIndex := (5 * dayOfYear + 2) / 153;
            && dayOfYear >= (153 * monthIndex + 2) / 5
            && (monthIndex >= 10 ==> monthIndex >= 9)
  {
    YearOfEraIsIt(dayOfEra);
  }

  function CivilFromDays(days: nat): Date {
    OfDayNumber(days + 719_468)
  }

  /** The days counted from the first era's start. */
  function OfDayNumber(z: nat): Date {
    OfEra(z / 146_097, z % 146_097)
  }

  /** A day of the 400 years after which the calendar repeats. */
  type EraDay = d: nat | d < 146_097

  function OfEra(era: nat, dayOfEra: EraDay): Date {
    YearOfEraIsIt(dayOfEra);
    InYear(era, YearOfEra(dayOfEra), dayOfEra)
  }

  function YearOf(era: nat, yearOfEra: nat): nat {
    yearOfEra + era * 400
  }

  function InYear(era: nat, yearOfEra: nat, dayOfEra: nat): Date
    requires 0 <= dayOfEra - DaysBefore(yearOfEra) <= 365
  {
    DateOf(YearOf(era, yearOfEra), dayOfEra - DaysBefore(yearOfEra))
  }

  /** The date of a day of the year that starts in March of `year`. */
  function DateOf(year: nat, dayOfYear: int): Date
    requires 0 <= dayOfYear <= 365
  {
    MonthIndexRange(dayOfYear);
    var (month, day) := MonthAndDay(dayOfYear);
    Date(year + (if month <= 2 then 1 else 0), month, day)
  }

  // ----- the year -----

  /** Days of an era up to the end of its year y: the last year of the era ends with the leap day of the 400th. */
  function DaysThrough(y: nat): int {
    DaysBefore(y + 1) + if y == 399 then 1 else 0
  }

  lemma YearOfEraIsIt(dayOfEra: nat)
    requires dayOfEra < 146_097
    ensures 0 <= YearOfEra(dayOfEra) <= 399
    ensures DaysBefore(YearOfEra(dayOfEra)) <= dayOfEra < DaysThrough(YearOfEra(dayOfEra))
  {
    var y := YearWithin(dayOfEra);
    YearFromParts(dayOfEra, y);
  }

  /** The year a day of the era falls in, found century by century. */
  lemma YearWithin(dayOfEra: nat) returns (y: nat)
    requires dayOfEra < 146_097
    ensures y <= 399 && DaysBefore(y) <= dayOfEra < DaysThrough(y)
  {
    var c := if dayOfEra == 146_096 then 3 else dayOfEra / 36_524;
    var inCentury := dayOfEra - 36_524 * c;
    var q := inCentury / 1_461;
    var inFour := inCentury - 1_461 * q;
    var s := if inFour == 1_460 then 3 else inFour / 365;
    y := 100 * c + 4 * q + s;
    assert y / 4 == 25 * c + q && y / 100 == c;
    assert (y + 1) / 4 == 25 * c + q + (if s == 3 then 1 else 0);
    assert (y + 1) / 100 == c + (if s == 3 && q == 24 then 1 else 0);
  }

  lemma YearFromParts(dayOfEra: nat, y: nat)
    requires dayOfEra < 146_097
    requires y <= 399 && DaysBefore(y) <= dayOfEra < DaysThrough(y)
    ensures YearOfEra(dayOfEra) == y
  {
    var c, q, s := y / 100, y % 100 / 4, y % 4;
    assert y == 100 * c + 4 * q + s && y / 4 == 25 * c + q;
    var dayOfYear := dayOfEra - DaysBefore(y);
    assert dayOfEra == 36_524 * c + 1_461 * q + 365 * s + dayOfYear;
    Corrections(dayOfEra, c, q, s, dayOfYear);
  }

  /** The three corrections leave 365 days for each year before. */
  lemma Corrections(dayOfEra: nat, c: nat, q: nat, s: nat, dayOfYear: nat)
    requires c <= 3 && q <= 24 && s <= 3
    requires dayOfYear < 365 || (dayOfYear == 365 && s == 3 && (q < 24 || c == 3))
    requires dayOfEra == 36_524 * c + 1_461 * q + 365 * s + dayOfYear
    ensures YearOfEra(dayOfEra) == 100 * c + 4 * q + s
  {
    var rest := 24 * c + q + 365 * s + dayOfYear;
    FourYears(dayOfEra, 25 * c + q, rest);
    var over := if rest >= 1_460 then 1 else 0;
    var last := if dayOfEra == 146_096 then 1 else 0;
    assert dayOfEra / 36_524 == c + last && dayOfEra / 146_096 == last;
    assert dayOfEra - dayOfEra / 1_460 + dayOfEra / 36_524 - dayOfEra / 146_096
        == 365 * (100 * c + 4 * q + s) + dayOfYear - over;
    assert over == 1 ==> dayOfYear >= 1;
    assert dayOfYear == 365 ==> over == 1;
  }

  lemma FourYears(dayOfEra: nat, fours: nat, rest: nat)
    requires dayOfEra == 1_460 * fours + rest && rest < 2_920
    ensures dayOfEra / 1_460 == fours + if rest >= 1_460 then 1 else 0
  {
  }

  /** A year that starts in March has 366 days when the February at its end is in a leap year. */
  lemma LengthOfYear(y: nat, era: nat)
    requires y <= 399
    ensures DaysThrough(y) - DaysBefore(y) == if IsLeap(y + era * 400 + 1) then 366 else 365
  {
    SameLeap(y + 1, era);
    assert (y + 1) / 4 == y / 4 + if (y + 1) % 4 == 0 then 1 else 0;
    assert (y + 1) / 100 == y / 100 + if (y + 1) % 100 == 0 then 1 else 0;
    assert y + 1 <= 400 && ((y + 1) % 400 == 0 <==> y == 399);
  }

  /** Leap years repeat every 400 years. */
  lemma {:induction false} SameLeap(year: nat, era: nat)
    ensures IsLeap(year + era * 400) == IsLeap(year)
  {
    if era > 0 {
      SameLeap(year, era - 1);
      FourHundredYears(year + (era - 1) * 400);
    }
  }

  lemma FourHundredYears(year: nat)
    ensures IsLeap(year + 400) == IsLeap(year)
  {
    WholeTurnsVanish(year, 100, 4);
    WholeTurnsVanish(year, 4, 100);
    OneTurnVanishes(year, 400);
  }

  /** The next day of the era is in the same year, or the first of the next. */
  lemma NextYearOfEra(dayOfEra: nat)
    requires dayOfEra + 1 < 146_097
    ensures YearOfEra(dayOfEra + 1) ==
              YearOfEra(dayOfEra) + if dayOfEra + 1 < DaysThrough(YearOfEra(dayOfEra)) then 0 else 1
  {
    YearOfEraIsIt(dayOfEra);
    var y := YearOfEra(dayOfEra);
    if dayOfEra + 1 < DaysThrough(y) {
      YearFromParts(dayOfEra + 1, y);
    } else {
      LengthOfYear(y + 1, 0);
      YearFromParts(dayOfEra + 1, y + 1);
    }
  }

  // ----- the month -----

  lemma MonthIndexRange(dayOfYear: int)
    requires 0 <= dayOfYear <= 365
    ensures 0 <= (5 * dayOfYear + 2) / 153 <= 11
    ensures 1 <= MonthAndDay(dayOfYear).0 <= 12 && 1 <= MonthAndDay(dayOfYear).1 <= 31
  {
  }

  /** Within a year that starts in March, the next day is the next date. */
  lemma NextInYear(year: nat, dayOfYear: int)
    requires 0 <= dayOfYear < (if IsLeap(year + 1) then 365 else 364)
    ensures IsDate(DateOf(year, dayOfYear))
    ensures DateOf(year, dayOfYear + 1) == NextDate(DateOf(year, dayOfYear))
  {
    var monthIndex, next := (5 * dayOfYear + 2) / 153, (5 * dayOfYear + 7) / 153;
    if next == monthIndex {
      assert MonthAndDay(dayOfYear + 1) == (MonthAndDay(dayOfYear).0, MonthAndDay(dayOfYear).1 + 1);
    } else {
      assert next == monthIndex + 1;
    }
  }

  /** Its last day is the last of February, and the year after it starts with the first of March. */
  lemma NextYear(year: nat)
    ensures var last := DateOf(year, if IsLeap(year + 1) then 365 else 364);
            && IsDate(last)
            && NextDate(last) == DateOf(year + 1, 0)
  {
  }

  // ----- the whole calendar -----

  /** The second day's date comes after the first one's. */
  ghost predicate Follows(dates: (nat, EraDay) -> Date, era: nat, day: EraDay, nextEra: nat, nextDay: EraDay) {
    IsDate(dates(era, day)) && dates(nextEra, nextDay) == NextDate(dates(era, day))
  }

  lemma NextInEra(era: nat, dayOfEra: nat)
    requires dayOfEra + 1 < 146_097
    ensures Follows(OfEra, era, dayOfEra, era, dayOfEra + 1)
  {
    YearOfEraIsIt(dayOfEra);
    YearOfEraIsIt(dayOfEra + 1);
    NextYearOfEra(dayOfEra);
    NextWithin(era, YearOfEra(dayOfEra), YearOfEra(dayOfEra + 1), dayOfEra);
  }

  lemma NextWithin(era: nat, y: nat, nextY: nat, dayOfEra: nat)
    requires y <= 399 && DaysBefore(y) <= dayOfEra < DaysThrough(y)
    requires nextY <= 399 && DaysBefore(nextY) <= dayOfEra + 1 < DaysThrough(nextY)
    requires nextY == y + if dayOfEra + 1 < DaysThrough(y) then 0 else 1
    ensures dayOfEra - DaysBefore(y) <= 365 && dayOfEra + 1 - DaysBefore(nextY) <= 365
    ensures IsDate(InYear(era, y, dayOfEra))
    ensures InYear(era, nextY, dayOfEra + 1) == NextDate(InYear(era, y, dayOfEra))
  {
    LengthOfYear(y, era);
    LengthOfYear(nextY, era);
    assert nextY > y ==> dayOfEra + 1 == DaysThrough(y) == DaysBefore(nextY);
    StepInYear(YearOf(era, y), dayOfEra - DaysBefore(y), YearOf(era, nextY), dayOfEra + 1 - DaysBefore(nextY));
  }

  lemma StepInYear(year: nat, dayOfYear: int, nextYear: nat, nextDay: int)
    requires 0 <= dayOfYear <= (if IsLeap(year + 1) then 365 else 364)
    requires if dayOfYear + 1 <= (if IsLeap(year + 1) then 365 else 364)
             then nextYear == year && nextDay == dayOfYear + 1
             else nextYear == year + 1 && nextDay == 0
    ensures IsDate(DateOf(year, dayOfYear))
    ensures DateOf(nextYear, nextDay) == NextDate(DateOf(year, dayOfYear))
  {
    if nextYear == year {
      NextInYear(year, dayOfYear);
    } else {
      NextYear(year);
    }
  }

  lemma NextEra(era: nat)
    ensures Follows(OfEra, era, 146_096, era + 1, 0)
  {
    YearFromParts(146_096, 399);
    YearFromParts(0, 0);
    LengthOfYear(399, era);
    NextYear(399 + era * 400);
  }

  /** The day after, be it in the same era or the first of the next. */
  lemma NextDay(dates: (nat, EraDay) -> Date, era: nat, dayOfEra: EraDay, nextEra: nat, nextDay: EraDay)
    requires DayNumber(nextEra, nextDay) == DayNumber(era, dayOfEra) + 1
    requires dayOfEra + 1 < 146_097 ==> Follows(dates, era, dayOfEra, era, dayOfEra + 1)
    requires Follows(dates, era, 146_096, era + 1, 0)
    ensures Follows(dates, era, dayOfEra, nextEra, nextDay)
  {
    SameSum(era, dayOfEra, nextEra, nextDay);
  }

  /** A day of an era, counted from the first one's start. */
  function DayNumber(era: nat, dayOfEra: nat): nat {
    era * 146_097 + dayOfEra
  }

  lemma DayNumberOf(z: nat)
    ensures DayNumber(z / 146_097, z % 146_097) == z && z % 146_097 < 146_097
  {
  }

  lemma SameSum(era: nat, dayOfEra: nat, nextEra: nat, nextDay: nat)
    requires dayOfEra < 146_097 && nextDay < 146_097
    requires DayNumber(nextEra, nextDay) == DayNumber(era, dayOfEra) + 1
    ensures if dayOfEra + 1 < 146_097 then nextEra == era && nextDay == dayOfEra + 1
            else dayOfEra == 146_096 && nextEra == era + 1 && nextDay == 0
  {
  }

  /** Each day has the date after the day before's. With day 0 at the epoch, this fixes the date of every day. */
  lemma CivilIsTheCalendar(days: nat)
    ensures IsDate(CivilFromDays(days))
    ensures CivilFromDays(days + 1) == NextDate(CivilFromDays(days))
  {
    NumbersFollowTheCalendar(days + 719_468);
    assert days + 1 + 719_468 == days + 719_468 + 1;
  }

  lemma NumbersFollowTheCalendar(z: nat)
    ensures IsDate(OfDayNumber(z)) && OfDayNumber(z + 1) == NextDate(OfDayNumber(z))
  {
    DayNumberOf(z);
    DayNumberOf(z + 1);
    EraIsTheCalendar(z / 146_097, z % 146_097, (z + 1) / 146_097, (z + 1) % 146_097);
  }

  lemma EraIsTheCalendar(era: nat, dayOfEra: EraDay, nextEra: nat, nextDay: EraDay)
    requires DayNumber(nextEra, nextDay) == DayNumber(era, dayOfEra) + 1
    ensures Follows(OfEra, era, dayOfEra, nextEra, nextDay)
  {
    if dayOfEra + 1 < 146_097 {
      NextInEra(era, dayOfEra);
    }
    NextEra(era);
    NextDay(OfEra, era, dayOfEra, nextEra, nextDay);
  }

  lemma DayZeroIsTheEpoch()
    ensures CivilFromDays(0) == Date(1970, 1, 1)
  {
    var z := 719_468;
    assert z / 146_097 == 4 && z % 146_097 == 135_080;
    EpochInEra();
  }

  lemma EpochInEra()
    ensures OfEra(4, 135_080) == Date(1970, 1, 1)
  {
    YearFromParts(135_080, 369);
  }

  predicate Earlier(a: Date, b: Date) {
    a.year < b.year || (a.year == b.year && (a.month < b.month || (a.month == b.month && a.day < b.day)))
  }

  /** Later days have later dates, so no two days share one. */
  lemma DatesFollowDays(a: nat, b: nat)
    requires a < b
    ensures Earlier(CivilFromDays(a), CivilFromDays(b))
    ensures CivilFromDays(a) != CivilFromDays(b)
  {
    forall days: nat
      ensures CivilFromDays(days + 1) == NextDate(CivilFromDays(days))
    {
      CivilIsTheCalendar(days);
    }
    Successively(CivilFromDays, a, b);
  }

  lemma {:induction false} Successively(dates: nat -> Date, a: nat, b: nat)
    requires forall n: nat :: dates(n + 1) == NextDate(dates(n))
    requires a < b
    ensures Earlier(dates(a), dates(b)) && dates(a) != dates(b)
    decreases b
  {
    NextIsLater(dates(b - 1));
    assert dates(b - 1 + 1) == NextDate(dates(b - 1));
    if a < b - 1 {
      Successively(dates, a, b - 1);
    }
  }

  lemma NextIsLater(d: Date)
    ensures Earlier(d, NextDate(d))
  {
  }
}
