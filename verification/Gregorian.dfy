/** Days and civil dates: the arithmetic conversion of the command line program against the calendar itself. */
module Gregorian {

  datatype Date = Date(year: int, month: int, day: int)

  predicate IsLeapYear(year: int) { year % 4 == 0 && (year % 100 != 0 || year % 400 == 0) }

  function DaysInMonth(year: int, month: int): int {
    if month == 2 then if IsLeapYear(year) then 29 else 28
    else if month == 4 || month == 6 || month == 9 || month == 11 then 30
    else 31
  }

  predicate ValidDate(d: Date) { 1 <= d.month <= 12 && 1 <= d.day <= DaysInMonth(d.year, d.month) }

  /** The next day of the proleptic Gregorian calendar. */
  function NextDay(d: Date): Date {
    if d.day < DaysInMonth(d.year, d.month) then d.(day := d.day + 1)
    else if d.month < 12 then Date(d.year, d.month + 1, 1)
    else Date(d.year + 1, 1, 1)
  }

  /** Division of the source language: toward zero. */
  function Quotient(a: int, b: int): int
    requires b > 0
  {
    if a >= 0 then a / b else -((-a) / b)
  }

  /** The date of a day of an era of 400 years that starts on 1 March. */
  function DateInEra(era: int, dayOfEra: int): Date {
    var yearOfEra :=
      Quotient(dayOfEra - Quotient(dayOfEra, 1_460) + Quotient(dayOfEra, 36_524) - Quotient(dayOfEra, 146_096), 365);
    var year := yearOfEra + era * 400;
    var dayOfYear := dayOfEra - (365 * yearOfEra + Quotient(yearOfEra, 4) - Quotient(yearOfEra, 100));
    var monthPrime := Quotient(5 * dayOfYear + 2, 153);
    var day := dayOfYear - Quotient(153 * monthPrime + 2, 5) + 1;
    var month := if monthPrime < 10 then monthPrime + 3 else monthPrime - 9;
    Date(if month <= 2 then year + 1 else year, month, day)
  }

  /** Day 0 is 1970-01-01. */
  function CivilFromDays(days: int): Date {
    var shifted := days + 719_468;
    var era := Quotient(if shifted >= 0 then shifted else shifted - 146_096, 146_097);
    DateInEra(era, shifted - era * 146_097)
  }

  // ---------- the shifted calendar ----------

  /** Days before the March of year `y` of an era of 400 years. */
  function DaysBefore(y: int): int { if y == 400 then 146_097 else 365 * y + y / 4 - y / 100 }

  function YearOfEra(dayOfEra: int): int {
    (dayOfEra - dayOfEra / 1_460 + dayOfEra / 36_524 - dayOfEra / 146_096) / 365
  }

  lemma QuadStep(y: int)
    ensures y / 4 == (y - 1) / 4 + (if y % 4 == 0 then 1 else 0)
  {
  }

  lemma CenturyStep(y: int)
    ensures y / 100 == (y - 1) / 100 + (if y % 100 == 0 then 1 else 0)
  {
  }

  lemma EraStep(y: int)
    ensures y / 400 == (y - 1) / 400 + (if y % 400 == 0 then 1 else 0)
  {
  }

  /** Numerator of the year, once the leap days that the centuries lack are added back: `k` cycles of four years and
      `s` days. */
  lemma CycleYear(d: int, c: int, k: int, s: int)
    requires 0 <= c <= 3 && 36_524 * c <= d && d + c == 1461 * k + s && 0 <= s <= 1460 && 0 <= k <= 99
    ensures (d - d / 1_460 + c) / 365 == 4 * k + if s >= 1460 then 3 else s / 365
  {
    var over := if k + s - c >= 1460 then 1 else 0;
    assert k >= c;
    assert d / 1_460 == k + over by { assert d == 1460 * (k + over) + (k + s - c - 1460 * over); }
    assert d - d / 1_460 + c == 365 * (4 * k) + (s - over);
  }

  lemma CenturyTerms(d: int, c: int)
    requires 0 <= c <= 3 && 36_524 * c <= d <= 36_524 * c + (if c == 3 then 36_524 else 36_523)
    ensures d / 36_524 - d / 146_096 == c
  {
  }

  lemma CycleBounds(d: int, c: int, k: int, s: int, y: int)
    requires 0 <= c <= 3 && 36_524 * c <= d <= 36_524 * c + (if c == 3 then 36_524 else 36_523)
    requires d + c == 1461 * k + s && 0 <= s <= 1460 && y == 4 * k + if s >= 1460 then 3 else s / 365
    ensures 0 <= k <= 99 && 25 * c <= k <= 25 * c + 24
    ensures y / 4 == k && y / 100 == c && 4 * k <= y <= 4 * k + 3 && 365 * y + k <= d + c
    ensures d + c < 365 * (y + 1) + k + if y == 4 * k + 3 then 1 else 0
  {
  }

  /** The correction terms find year `y` of century `c`, in cycle `k`. */
  lemma YearInCycle(d: int, c: int, k: int, s: int)
    requires 0 <= c <= 3 && 36_524 * c <= d <= 36_524 * c + (if c == 3 then 36_524 else 36_523)
    requires d + c == 1461 * k + s && 0 <= s <= 1460 && 0 <= k <= 99
    ensures YearOfEra(d) == 4 * k + if s >= 1460 then 3 else s / 365
  {
    CenturyTerms(d, c);
    CycleYear(d, c, k, s);
  }

  /** The days of such a year. */
  lemma DaysAround(d: int, c: int, k: int, y: int)
    requires 0 <= c <= 3 && 25 * c <= k <= 25 * c + 24 && y / 4 == k && y / 100 == c && 4 * k <= y <= 4 * k + 3
    requires 365 * y + k <= d + c < 365 * (y + 1) + k + if y == 4 * k + 3 then 1 else 0
    requires d <= 36_524 * c + (if c == 3 then 36_524 else 36_523)
    ensures DaysBefore(y) <= d < DaysBefore(y + 1)
  {
    QuadStep(y + 1);
    CenturyStep(y + 1);
  }

  /** In century `c` of an era, whose first day is 36524 * c, the correction terms find the year. */
  lemma YearInCentury(d: int, c: int)
    requires 0 <= c <= 3 && 36_524 * c <= d <= 36_524 * c + (if c == 3 then 36_524 else 36_523)
    ensures var y := YearOfEra(d); 100 * c <= y <= 100 * c + 99 && DaysBefore(y) <= d < DaysBefore(y + 1)
  {
    var k, s := (d + c) / 1461, (d + c) % 1461;
    var y := 4 * k + if s >= 1460 then 3 else s / 365;
    CycleBounds(d, c, k, s, y);
    YearInCycle(d, c, k, s);
    DaysAround(d, c, k, y);
  }

  lemma YearOfEraIsRight(d: int)
    requires 0 <= d <= 146_096
    ensures 0 <= YearOfEra(d) <= 399 && DaysBefore(YearOfEra(d)) <= d < DaysBefore(YearOfEra(d) + 1)
  {
    YearInCentury(d, if d == 146_096 then 3 else d / 36_524);
  }

  lemma YearIsUnique(y: int, z: int, d: int)
    requires 0 <= y <= 399 && 0 <= z <= 399
    requires DaysBefore(y) <= d < DaysBefore(y + 1) && DaysBefore(z) <= d < DaysBefore(z + 1)
    ensures y == z
  {
    if y < z { Increasing(y + 1, z); } else if z < y { Increasing(z + 1, y); }
  }

  lemma Increasing(y: int, z: int)
    requires 0 <= y <= z <= 400
    ensures DaysBefore(y) <= DaysBefore(z)
  {
  }

  /** Days before the month `m` counted from March. */
  function DaysBeforeMonth(m: int): int { (153 * m + 2) / 5 }

  function FromMarch(y: int, dayOfYear: int): Date {
    var m := (5 * dayOfYear + 2) / 153;
    var month := if m < 10 then m + 3 else m - 9;
    Date(if month <= 2 then y + 1 else y, month, dayOfYear - DaysBeforeMonth(m) + 1)
  }

  lemma EraIsFloor(shifted: int)
    ensures Quotient(if shifted >= 0 then shifted else shifted - 146_096, 146_097) == shifted / 146_097
  {
    var q, r := shifted / 146_097, shifted % 146_097;
    if shifted < 0 {
      assert -(shifted - 146_096) == 146_097 * (-q) + (146_096 - r);
    }
  }

  lemma DateInEraIs(era: int, dayOfEra: int) returns (y: int, dayOfYear: int)
    requires 0 <= dayOfEra <= 146_096
    ensures 0 <= y <= 399 && 0 <= dayOfYear < DaysBefore(y + 1) - DaysBefore(y)
    ensures dayOfEra == DaysBefore(y) + dayOfYear
    ensures DateInEra(era, dayOfEra) == FromMarch(y + 400 * era, dayOfYear)
  {
    y := YearOfEra(dayOfEra);
    YearOfEraIsRight(dayOfEra);
    assert dayOfEra / 1_460 <= dayOfEra && dayOfEra / 146_096 <= dayOfEra / 36_524;
    dayOfYear := dayOfEra - DaysBefore(y);
  }

  lemma CivilInEra(days: int) returns (era: int, dayOfEra: int)
    ensures days + 719_468 == 146_097 * era + dayOfEra && 0 <= dayOfEra <= 146_096
    ensures CivilFromDays(days) == DateInEra(era, dayOfEra)
  {
    era, dayOfEra := (days + 719_468) / 146_097, (days + 719_468) % 146_097;
    EraIsFloor(days + 719_468);
  }

  /** The conversion splits the shifted day into era, year of era and day of year. */
  lemma Split(days: int) returns (era: int, y: int, dayOfYear: int)
    ensures 0 <= y <= 399 && 0 <= dayOfYear < DaysBefore(y + 1) - DaysBefore(y)
    ensures days + 719_468 == 146_097 * era + DaysBefore(y) + dayOfYear
    ensures CivilFromDays(days) == FromMarch(y + 400 * era, dayOfYear)
  {
    var dayOfEra;
    era, dayOfEra := CivilInEra(days);
    y, dayOfYear := DateInEraIs(era, dayOfEra);
  }

  lemma SplitIsUnique(era: int, y: int, d: int, era': int, y': int, d': int)
    requires 0 <= y <= 399 && 0 <= d < DaysBefore(y + 1) - DaysBefore(y)
    requires 0 <= y' <= 399 && 0 <= d' < DaysBefore(y' + 1) - DaysBefore(y')
    requires 146_097 * era + DaysBefore(y) + d == 146_097 * era' + DaysBefore(y') + d'
    ensures era == era' && y == y' && d == d'
  {
    Increasing(0, y); Increasing(0, y'); Increasing(y + 1, 400); Increasing(y' + 1, 400);
    assert era == era';
    YearIsUnique(y, y', DaysBefore(y) + d);
  }

  lemma Remainder4(z: int, t: int)
    ensures (z + 4 * t) % 4 == z % 4
  {
  }

  lemma Remainder100(z: int, t: int)
    ensures (z + 100 * t) % 100 == z % 100
  {
  }

  lemma Remainder400(z: int, t: int)
    ensures (z + 400 * t) % 400 == z % 400
  {
  }

  lemma LeapLength(era: int, y: int)
    requires 0 <= y <= 399
    ensures DaysBefore(y + 1) - DaysBefore(y) == if IsLeapYear(y + 400 * era + 1) then 366 else 365
  {
    Remainder4(y + 1, 100 * era);
    Remainder100(y + 1, 4 * era);
    Remainder400(y + 1, era);
    QuadStep(y + 1);
    CenturyStep(y + 1);
  }

  ghost predicate StepsToNext(y: int, d: int) {
    var length := if IsLeapYear(y + 1) then 366 else 365;
    && ValidDate(FromMarch(y, d))
    && NextDay(FromMarch(y, d)) == if d + 1 < length then FromMarch(y, d + 1) else FromMarch(y + 1, 0)
  }

  lemma FirstMonths(y: int, d: int)
    requires 0 <= d < 184
    ensures StepsToNext(y, d)
  {
    var m := (5 * d + 2) / 153;
    if m == 0 {} else if m == 1 {} else if m == 2 {} else if m == 3 {} else if m == 4 {} else {}
  }

  lemma LastMonths(y: int, d: int)
    requires 184 <= d < if IsLeapYear(y + 1) then 366 else 365
    ensures StepsToNext(y, d)
  {
    var m := (5 * d + 2) / 153;
    if m == 6 {} else if m == 7 {} else if m == 8 {} else if m == 9 {} else if m == 10 {} else {}
  }

  /** Within a March year, day after day is date after date, and its last day is the end of February. */
  lemma MonthStep(y: int, d: int)
    requires 0 <= d < if IsLeapYear(y + 1) then 366 else 365
    ensures StepsToNext(y, d)
  {
    if d < 184 { FirstMonths(y, d); } else { LastMonths(y, d); }
  }

  // ---------- main theorems ----------

  lemma Epoch()
    ensures CivilFromDays(0) == Date(1970, 1, 1)
  {
  }

  /** The date after a day of an era's year. */
  lemma NextSplit(era: int, y: int, d: int, era': int, y': int, d': int)
    requires 0 <= y <= 399 && 0 <= d < DaysBefore(y + 1) - DaysBefore(y)
    requires 0 <= y' <= 399 && 0 <= d' < DaysBefore(y' + 1) - DaysBefore(y')
    requires 146_097 * era' + DaysBefore(y') + d' == 146_097 * era + DaysBefore(y) + d + 1
    ensures ValidDate(FromMarch(y + 400 * era, d))
    ensures FromMarch(y' + 400 * era', d') == NextDay(FromMarch(y + 400 * era, d))
  {
    LeapLength(era, y);
    MonthStep(y + 400 * era, d);
    var e, z, first := NextStart(era, y, d);
    SplitIsUnique(e, z, first, era', y', d');
  }

  /** Era, year and day of the next day. */
  lemma NextStart(era: int, y: int, d: int) returns (e: int, z: int, first: int)
    requires 0 <= y <= 399 && 0 <= d < DaysBefore(y + 1) - DaysBefore(y)
    ensures 0 <= z <= 399 && 0 <= first < DaysBefore(z + 1) - DaysBefore(z)
    ensures 146_097 * e + DaysBefore(z) + first == 146_097 * era + DaysBefore(y) + d + 1
    ensures if d + 1 < DaysBefore(y + 1) - DaysBefore(y) then e == era && z == y && first == d + 1
            else z + 400 * e == y + 400 * era + 1 && first == 0
  {
    if d + 1 < DaysBefore(y + 1) - DaysBefore(y) {
      e, z, first := era, y, d + 1;
    } else if y < 399 {
      e, z, first := era, y + 1, 0;
    } else {
      e, z, first := era + 1, 0, 0;
    }
  }

  /** Every day number converts to a date of the calendar, and the next number to the next date. */
  lemma CivilIsCalendar(days: int)
    ensures ValidDate(CivilFromDays(days)) && CivilFromDays(days + 1) == NextDay(CivilFromDays(days))
  {
    var era, y, d := Split(days);
    var era', y', d' := Split(days + 1);
    NextSplit(era, y, d, era', y', d');
  }

  /** Leap days up to and including year `y`. */
  function LeapDays(y: int): int { y / 4 - y / 100 + y / 400 }

  lemma CenturyIsQuad(year: int)
    ensures year % 100 == 0 ==> year % 4 == 0
  {
    if year % 100 == 0 { assert year == 4 * (25 * (year / 100)); }
  }

  lemma EraIsCentury(year: int)
    ensures year % 400 == 0 ==> year % 100 == 0
  {
    if year % 400 == 0 { assert year == 100 * (4 * (year / 400)); }
  }

  lemma LeapDaysStep(year: int)
    ensures LeapDays(year) == LeapDays(year - 1) + (if IsLeapYear(year) then 1 else 0)
  {
    QuadStep(year);
    CenturyStep(year);
    EraStep(year);
    CenturyIsQuad(year);
    EraIsCentury(year);
  }

  /** Days from 1970-01-01, counted by whole years before the date's year and whole months before its month. */
  function DayNumber(d: Date): int {
    365 * (d.year - 1) + LeapDays(d.year - 1) + DaysBeforeCivilMonth(d.year, d.month) + d.day - 719_163
  }

  function DaysBeforeCivilMonth(year: int, month: int): int
    decreases month
  {
    if month <= 1 then 0 else DaysBeforeCivilMonth(year, month - 1) + DaysInMonth(year, month - 1)
  }

  lemma MonthsOfYear(year: int)
    ensures DaysBeforeCivilMonth(year, 12) + 31 == if IsLeapYear(year) then 366 else 365
  {
    assert DaysBeforeCivilMonth(year, 4) == 31 + DaysInMonth(year, 2) + 31;
    assert DaysBeforeCivilMonth(year, 8) == DaysBeforeCivilMonth(year, 4) + 122;
    assert DaysBeforeCivilMonth(year, 12) == DaysBeforeCivilMonth(year, 8) + 122;
  }

  lemma NextDayNumber(d: Date)
    requires ValidDate(d)
    ensures DayNumber(NextDay(d)) == DayNumber(d) + 1
  {
    if d.day == DaysInMonth(d.year, d.month) && d.month == 12 {
      MonthsOfYear(d.year);
      LeapDaysStep(d.year);
    }
  }

  /** Whatever walks the calendar day by day from the epoch is inverted by the day count. */
  lemma {:induction false} WalkCounts(walk: int -> Date, days: int)
    requires walk(0) == Date(1970, 1, 1)
    requires forall n :: ValidDate(walk(n)) && walk(n + 1) == NextDay(walk(n))
    ensures DayNumber(walk(days)) == days
    decreases if days >= 0 then days else -days
  {
    if days > 0 {
      WalkCounts(walk, days - 1);
      assert ValidDate(walk(days - 1)) && walk(days - 1 + 1) == NextDay(walk(days - 1));
      NextDayNumber(walk(days - 1));
    } else if days < 0 {
      WalkCounts(walk, days + 1);
      NextDayNumber(walk(days));
    } else {
      assert LeapDays(1969) == 477;
    }
  }

  /** The conversion inverts the day count. */
  lemma DayNumberInverts(days: int)
    ensures DayNumber(CivilFromDays(days)) == days
  {
    var walk := CivilFromDays;
    forall n ensures ValidDate(walk(n)) && walk(n + 1) == NextDay(walk(n)) { CivilIsCalendar(n); }
    Epoch();
    WalkCounts(walk, days);
  }

  predicate DateBefore(a: Date, b: Date) {
    a.year < b.year || (a.year == b.year && (a.month < b.month || (a.month == b.month && a.day < b.day)))
  }

  lemma {:induction false} MonthsAdd(year: int, m: int, n: int)
    requires 1 <= m < n
    ensures DaysBeforeCivilMonth(year, m) + DaysInMonth(year, m) <= DaysBeforeCivilMonth(year, n)
    decreases n - m
  {
    if m + 1 < n { MonthsAdd(year, m, n - 1); }
  }

  lemma {:induction false} YearsAdd(year: int, later: int)
    requires year < later
    ensures 365 * (year - 1) + LeapDays(year - 1) + (if IsLeapYear(year) then 366 else 365) <= 365 * (later - 1) +
            LeapDays(later - 1)
    decreases later - year
  {
    LeapDaysStep(later - 1);
    if year + 1 < later { YearsAdd(year, later - 1); }
  }

  /** Earlier dates have smaller day numbers. */
  lemma DateOrder(a: Date, b: Date)
    requires ValidDate(a) && ValidDate(b)
    ensures DateBefore(a, b) <==> DayNumber(a) < DayNumber(b)
  {
    if DateBefore(a, b) { DateBeforeIsLess(a, b); }
    else if a != b { DateBeforeIsLess(b, a); }
  }

  lemma DateBeforeIsLess(a: Date, b: Date)
    requires ValidDate(a) && ValidDate(b) && DateBefore(a, b)
    ensures DayNumber(a) < DayNumber(b)
  {
    if a.year < b.year {
      YearsAdd(a.year, b.year);
      MonthsOfYear(a.year);
      if a.month < 12 { MonthsAdd(a.year, a.month, 12); }
      if 1 < b.month { MonthsAdd(b.year, 1, b.month); }
    } else if a.month < b.month {
      MonthsAdd(a.year, a.month, b.month);
    }
  }
}
