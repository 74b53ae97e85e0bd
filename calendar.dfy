/** The calendar that the bunk calculator reads through JavaScript's Date:
    a day is an ordinal (days since 1970-01-01 in the local calendar), from
    which the weekday (Date.getDay) and the day of the month (Date.getDate)
    are derived. */
module Calendar {

  /** Days since 1970-01-01; negative values are earlier days. */
  type Day = int

  /** A proleptic Gregorian date. */
  datatype CivilDate = CivilDate(year: int, month: int, day: int)

  const Sunday := 0
  const Saturday := 6

  /** Weekday numbered as Date.getDay numbers it: 0 is Sunday, 6 is Saturday.
      1970-01-01 was a Thursday (4). */
  function Weekday(d: Day): (w: int)
    ensures 0 <= w < 7
  {
    (d + 4) % 7
  }

  /** nextDate: the same moment one calendar day later. */
  function NextDate(d: Day): (n: Day)
    ensures d < n && Weekday(n) == (Weekday(d) + 1) % 7
  {
    d + 1
  }

  /** The civil date of a day, by Howard Hinnant's days-to-civil algorithm:
      split the day into a 400-year era (which begins on a 1 March) and the
      day within it, then into the year of the era, the day of that year and
      the month counted from March. Dafny's division rounds down for a
      positive divisor, which is the floor the algorithm asks for. */
  function CivilFromDays(d: Day): CivilDate
  {
    var era := (d + 719468) / 146097;
    var doe := DayOfEra(d);
    var yoe := YearOfEra(doe);
    var doy := DayOfMarchYear(doe, yoe);
    var mp := MarchMonth(doy);
    var month := if mp < 10 then mp + 3 else mp - 9;
    var year := yoe + era * 400;
    CivilDate(if month <= 2 then year + 1 else year, month, doy - (153 * mp + 2) / 5 + 1)
  }

  /** Day within the 400-year era, counted from 0000-03-01. */
  function DayOfEra(d: Day): int
  {
    (d + 719468) % 146097
  }

  /** Year within the era of a day of the era (leap days removed first). */
  function YearOfEra(doe: int): int
  {
    (doe - doe / 1460 + doe / 36524 - doe / 146096) / 365
  }

  /** Day within the year that starts on 1 March. */
  function DayOfMarchYear(doe: int, yoe: int): int
  {
    doe - (365 * yoe + yoe / 4 - yoe / 100)
  }

  /** Month counted from March (0) to February (11). */
  function MarchMonth(doy: int): int
  {
    (5 * doy + 2) / 153
  }

  /** The inverse of CivilFromDays, used to name days by their date. */
  function DaysFromCivil(c: CivilDate): Day
  {
    var y := if c.month <= 2 then c.year - 1 else c.year;
    var era := y / 400;
    var yoe := y - era * 400;
    var mp := if c.month > 2 then c.month - 3 else c.month + 9;
    var doy := (153 * mp + 2) / 5 + c.day - 1;
    var doe := yoe * 365 + yoe / 4 - yoe / 100 + doy;
    era * 146097 + doe - 719468
  }

  /** Date.getDate: the day of the month. */
  function DayOfMonth(d: Day): (dom: int)
    ensures 1 <= dom <= 31
  {
    CivilRoundTrip(d);
    CivilFromDays(d).day
  }

  /** isSecondOrFourthSaturday: a Saturday whose day of the month lies in
      8..14 or 22..28. */
  predicate IsSecondOrFourthSaturday(d: Day): (picked: bool)
    ensures picked ==> Weekday(d) == Saturday && 8 <= DayOfMonth(d) <= 28
    ensures Weekday(d) != Saturday ==> !picked
  {
    if Weekday(d) != Saturday then false
    else
      var dom := DayOfMonth(d);
      (dom >= 8 && dom <= 14) || (dom >= 22 && dom <= 28)
  }

  /** Which occurrence of its weekday within its month a day of the month is:
      days 1-7 are the first, 8-14 the second, and so on. */
  function WeekdayOccurrence(dayOfMonth: int): int
  {
    (dayOfMonth - 1) / 7 + 1
  }

  /** isHoliday: the day is listed among the holidays. */
  predicate IsHoliday(d: Day, holidays: seq<Day>): (listed: bool)
    ensures listed <==> exists i :: 0 <= i < |holidays| && holidays[i] == d
    ensures holidays == [] ==> !listed
  {
    d in holidays
  }

  /** The Saturday rule says what its name says: the Saturdays it picks out
      are exactly the second and the fourth Saturday of their month, and it
      picks out no other day. */
  lemma SecondOrFourthSaturdayIsNthOccurrence(d: Day)
    ensures IsSecondOrFourthSaturday(d) <==>
              Weekday(d) == Saturday && WeekdayOccurrence(DayOfMonth(d)) in {2, 4}
  {
  }

  /** Within one century of an era (36524 days: 24 four-year cycles of 1461
      days and a last cycle one day short), the year and the day of the year
      come out in range. */
  lemma DayOfYearInCentury(doe: int, c: int, q: int, s: int)
    requires 0 <= c < 4 && 0 <= q && 0 <= s < 1461
    requires doe == 36524 * c + 1461 * q + s && doe < 36524 * (c + 1)
    ensures 0 <= YearOfEra(doe) < 400 && 0 <= DayOfMarchYear(doe, YearOfEra(doe)) <= 365
  {
    assert q <= 24;
    assert doe / 36524 == c && doe / 146096 == 0;
    // The day that closes a four-year cycle is the only one that pulls the
    // quotient by 1460 one further.
    var e := (24 * c + q + s) / 1460;
    assert doe == 1460 * (25 * c + q) + 24 * c + q + s;
    assert doe / 1460 == 25 * c + q + e;
    var j := (s - e) / 365;
    assert 0 <= j <= 3;
    assert YearOfEra(doe) == 100 * c + 4 * q + j;
    assert DayOfMarchYear(doe, 100 * c + 4 * q + j) == s - 365 * j;
  }

  /** Every day of an era falls in a year 0..399 of it, on a day 0..365 of
      that year. */
  lemma DayOfYearInRange(doe: int)
    requires 0 <= doe < 146097
    ensures 0 <= YearOfEra(doe) < 400 && 0 <= DayOfMarchYear(doe, YearOfEra(doe)) <= 365
  {
    if doe == 146096 {
      assert YearOfEra(doe) == 399;
    } else {
      var c := doe / 36524;
      var q := (doe - 36524 * c) / 1461;
      DayOfYearInCentury(doe, c, q, doe - 36524 * c - 1461 * q);
    }
  }

  /** A day 0..365 of a year that starts on 1 March falls in a month 0..11
      counted from March, on a day 1..31 of that month. */
  lemma MonthAndDayInRange(doy: int)
    requires 0 <= doy <= 365
    ensures 0 <= MarchMonth(doy) <= 11
    ensures 1 <= doy - (153 * MarchMonth(doy) + 2) / 5 + 1 <= 31
  {
  }

  /** The civil date of a day has a month 1..12 and a day 1..31, and
      converting it back gives the same day, so no two days share a date. */
  lemma CivilRoundTrip(d: Day)
    ensures var c := CivilFromDays(d);
            1 <= c.month <= 12 && 1 <= c.day <= 31 && DaysFromCivil(c) == d
  {
    var era := (d + 719468) / 146097;
    var doe := DayOfEra(d);
    assert d + 719468 == era * 146097 + doe;
    DayOfYearInRange(doe);
    var yoe := YearOfEra(doe);
    var doy := DayOfMarchYear(doe, yoe);
    MonthAndDayInRange(doy);
    var y := yoe + era * 400;
    assert y / 400 == era && y - era * 400 == yoe;
  }

  /** Seven days on, the weekday is the same. */
  lemma WeekdayPeriodic(d: Day, k: int)
    ensures Weekday(d + 7 * k) == Weekday(d)
  {
  }

  /** 1970-01-01 is day 0, a Thursday. */
  lemma SampleEpoch()
    ensures DaysFromCivil(CivilDate(1970, 1, 1)) == 0 && Weekday(0) == 4
  {
  }

  /** 2025-11-24 is day 20416, a Monday, and converts back to itself. */
  lemma SampleMonday()
    ensures DaysFromCivil(CivilDate(2025, 11, 24)) == 20416
    ensures CivilFromDays(20416) == CivilDate(2025, 11, 24) && Weekday(20416) == 1
  {
    assert DayOfEra(20416) == 9399;
    assert YearOfEra(9399) == 25;
    assert DayOfMarchYear(9399, 25) == 268;
    assert MarchMonth(268) == 8;
  }

  /** 2024-02-29 (day 19782) is followed by 2024-03-01. */
  lemma SampleLeapDay()
    ensures DaysFromCivil(CivilDate(2024, 2, 29)) == 19782
    ensures CivilFromDays(19782) == CivilDate(2024, 2, 29)
    ensures CivilFromDays(NextDate(19782)) == CivilDate(2024, 3, 1)
  {
    assert DayOfEra(19782) == 8765;
    assert YearOfEra(8765) == 23;
    assert DayOfMarchYear(8765, 23) == 365;
    assert MarchMonth(365) == 11;
    assert DayOfEra(19783) == 8766;
    assert YearOfEra(8766) == 24;
    assert DayOfMarchYear(8766, 24) == 0;
    assert MarchMonth(0) == 0;
  }

  /** In November 2025 the Saturdays are the 1st, 8th, 15th, 22nd and 29th
      (days 20393, 20400, 20407, 20414 and 20421); the rule picks out the 8th
      and the 22nd. */
  lemma SampleSecondAndFourthSaturdays()
    ensures DaysFromCivil(CivilDate(2025, 11, 8)) == 20400
    ensures IsSecondOrFourthSaturday(20400) && IsSecondOrFourthSaturday(20414)
  {
    assert DayOfEra(20400) == 9383 && YearOfEra(9383) == 25;
    assert DayOfMarchYear(9383, 25) == 252 && MarchMonth(252) == 8;
    assert CivilFromDays(20400) == CivilDate(2025, 11, 8);
    assert DayOfEra(20414) == 9397 && YearOfEra(9397) == 25;
    assert DayOfMarchYear(9397, 25) == 266 && MarchMonth(266) == 8;
    assert CivilFromDays(20414) == CivilDate(2025, 11, 22);
  }

  /** The rule leaves out the first, third and fifth Saturdays of November
      2025, and Sunday the 9th. */
  lemma SampleOtherSaturdays()
    ensures !IsSecondOrFourthSaturday(20393) && !IsSecondOrFourthSaturday(20407)
    ensures !IsSecondOrFourthSaturday(20421) && !IsSecondOrFourthSaturday(20401)
  {
    assert DayOfEra(20393) == 9376 && YearOfEra(9376) == 25;
    assert DayOfMarchYear(9376, 25) == 245 && MarchMonth(245) == 8;
    assert CivilFromDays(20393) == CivilDate(2025, 11, 1);
    assert DayOfEra(20407) == 9390 && YearOfEra(9390) == 25;
    assert DayOfMarchYear(9390, 25) == 259 && MarchMonth(259) == 8;
    assert CivilFromDays(20407) == CivilDate(2025, 11, 15);
    assert DayOfEra(20421) == 9404 && YearOfEra(9404) == 25;
    assert DayOfMarchYear(9404, 25) == 273 && MarchMonth(273) == 8;
    assert CivilFromDays(20421) == CivilDate(2025, 11, 29);
  }
}
