/** The date arithmetic of tradingtime.h on yyyymmdd numbers held in uint32_t, tied to one
    day ordinal: the number of days from 1 January of year 1 through the date. */
module Calendar {
  type u32 = x: int | 0 <= x < 0x1_0000_0000

  /** The last date whose successor still fits in a uint32_t is the day before this one. */
  const LAST_DATE: u32 := 4294961231

  function W(x: int): u32 {
    x % 0x1_0000_0000
  }

  function Year(date: u32): u32 { date / 10000 }
  function Month(date: u32): u32 { date % 10000 / 100 }
  function Day(date: u32): u32 { date % 100 }

  // ----- The functions as coded -----

  predicate IsLeapYear(year: u32) {
    (year % 4 == 0 && year % 100 != 0) || year % 400 == 0
  }

  const MONTH_DAYS: seq<int> := [0, 31, 59, 90, 120, 151, 181, 212, 243, 273, 304, 334]
  const MONTH_DAYS_LEAP: seq<int> := [0, 31, 60, 91, 121, 152, 182, 213, 244, 274, 305, 335]

  function GetDayOfYear(date: u32): int
    requires 1 <= Month(date) <= 12
  {
    (if IsLeapYear(Year(date)) then MONTH_DAYS_LEAP[Month(date) - 1] else MONTH_DAYS[Month(date) - 1])
    + Day(date) - 1
  }

  function GetWeekDay(date: u32): int {
    WeekDayOf(Year(date), Month(date), Day(date))
  }

  function WeekDayOf(year: u32, month: u32, d: u32): int {
    if month == 1 || month == 2 then W(WeekFormula(Decremented(year), month + 12, d)) % 7 + 1
    else W(WeekFormula(year, month, d)) % 7 + 1
  }

  /** y-- on an unsigned year. */
  function Decremented(y: u32): u32 {
    if y == 0 then 0xFFFF_FFFF else y - 1
  }

  function WeekFormula(y: nat, m: nat, d: nat): int {
    d + 2 * m + 3 * (m + 1) / 5 + y + y / 4 - y / 100 + y / 400
  }

  /** The table of getTomorrow and getYesterday, with its unused entry 0. */
  function MonthTable(leap: bool): (t: seq<u32>)
    ensures |t| == 13
  {
    [0, 31, if leap then 29 else 28, 31, 30, 31, 30, 31, 31, 30, 31, 30, 31]
  }

  function GetTomorrow(date: u32): u32
    requires Month(date) <= 12
  {
    TomorrowOf(Year(date), Month(date), Day(date))
  }

  function TomorrowOf(y: u32, m: u32, d: u32): u32
    requires m <= 12
  {
    var table := MonthTable(IsLeapYear(y));
    if d + 1 <= table[m] then Packed(y, m, d + 1)
    else if m + 1 <= 12 then Packed(y, m + 1, 1)
    else Packed(W(y + 1), 1, 1)
  }

  function GetYesterday(date: u32): u32
    requires Day(date) > 1 || Month(date) <= 13
  {
    YesterdayOf(Year(date), Month(date), Day(date))
  }

  function YesterdayOf(y: u32, m: u32, d: u32): u32
    requires d > 1 || m <= 13
  {
    var table := MonthTable(IsLeapYear(y));
    if d > 1 then Packed(y, m, d - 1)
    else if m > 1 then Packed(y, m - 1, table[m - 1])
    else Packed(Decremented(y), 12, 31)
  }

  function Packed(y: nat, m: nat, d: nat): u32 {
    W(y * 10000 + m * 100 + d)
  }

  // ----- The reference calendar -----

  function DaysInMonth(y: nat, m: nat): (n: nat)
    requires 1 <= m <= 12
    ensures 28 <= n <= 31
  {
    if m == 2 then (if y % 400 == 0 || (y % 4 == 0 && y % 100 != 0) then 29 else 28)
    else if m == 4 || m == 6 || m == 9 || m == 11 then 30
    else 31
  }

  function DaysBeforeMonth(y: nat, m: nat): nat
    requires 1 <= m <= 12
  {
    if m == 1 then 0 else DaysBeforeMonth(y, m - 1) + DaysInMonth(y, m - 1)
  }

  function YearLength(y: nat): nat {
    DaysBeforeMonth(y, 12) + DaysInMonth(y, 12)
  }

  /** Days in all the years before year y. */
  function DaysBeforeYear(y: nat): nat
    requires y >= 1
  {
    if y == 1 then 0 else DaysBeforeYear(y - 1) + YearLength(y - 1)
  }

  predicate ValidDate(date: u32) {
    && Year(date) >= 1
    && 1 <= Month(date) <= 12
    && 1 <= Day(date) <= DaysInMonth(Year(date), Month(date))
  }

  function OrdinalOf(y: nat, m: nat, d: nat): int
    requires y >= 1 && 1 <= m <= 12
  {
    DaysBeforeYear(y) + DaysBeforeMonth(y, m) + d
  }

  function Ordinal(date: u32): int
    requires ValidDate(date)
  {
    OrdinalOf(Year(date), Month(date), Day(date))
  }

  // ----- Facts about the reference calendar -----

  lemma YearLengthIs(y: nat)
    ensures YearLength(y) == if y % 400 == 0 || (y % 4 == 0 && y % 100 != 0) then 366 else 365
  {
    MonthStarts(y);
  }

  /** Both month tables of getDayOfYear count the days of the months before. */
  lemma MonthStarts(y: nat)
    ensures forall m {:trigger DaysBeforeMonth(y, m)} :: 1 <= m <= 12 ==>
      DaysBeforeMonth(y, m) ==
        if y % 400 == 0 || (y % 4 == 0 && y % 100 != 0) then MONTH_DAYS_LEAP[m - 1] else MONTH_DAYS[m - 1]
  {
    assert DaysBeforeMonth(y, 2) == 31;
    assert DaysBeforeMonth(y, 3) == 31 + DaysInMonth(y, 2);
    assert DaysBeforeMonth(y, 4) == 62 + DaysInMonth(y, 2);
    assert DaysBeforeMonth(y, 5) == 92 + DaysInMonth(y, 2);
    assert DaysBeforeMonth(y, 6) == 123 + DaysInMonth(y, 2);
    assert DaysBeforeMonth(y, 7) == 153 + DaysInMonth(y, 2);
    assert DaysBeforeMonth(y, 8) == 184 + DaysInMonth(y, 2);
    assert DaysBeforeMonth(y, 9) == 215 + DaysInMonth(y, 2);
    assert DaysBeforeMonth(y, 10) == 245 + DaysInMonth(y, 2);
    assert DaysBeforeMonth(y, 11) == 276 + DaysInMonth(y, 2);
    assert DaysBeforeMonth(y, 12) == 306 + DaysInMonth(y, 2);
  }

  /** Leap years among 1..c. */
  function LeapYears(c: nat): nat {
    if c == 0 then 0
    else LeapYears(c - 1) + (if c % 400 == 0 || (c % 4 == 0 && c % 100 != 0) then 1 else 0)
  }

  lemma {:induction false} DaysBeforeYearByLeapYears(y: nat)
    requires y >= 1
    ensures DaysBeforeYear(y) == 365 * (y - 1) + LeapYears(y - 1)
  {
    hide YearLength;
    if y > 1 {
      DaysBeforeYearByLeapYears(y - 1);
      YearLengthIs(y - 1);
    }
  }

  lemma {:induction false} LeapYearsClosedForm(c: nat)
    ensures LeapYears(c) == c / 4 - c / 100 + c / 400
  {
    if c > 0 {
      LeapYearsClosedForm(c - 1);
      NextLeapYear(c);
    }
  }

  lemma NextLeapYear(c: nat)
    requires c > 0
    ensures c / 4 - c / 100 + c / 400 == (c - 1) / 4 - (c - 1) / 100 + (c - 1) / 400
      + (if c % 400 == 0 || (c % 4 == 0 && c % 100 != 0) then 1 else 0)
  {
    QuotientSteps(c - 1, 4);
    QuotientSteps(c - 1, 100);
    QuotientSteps(c - 1, 400);
    DivisorChain(c);
  }

  lemma DivisorChain(c: nat)
    ensures c % 400 == 0 ==> c % 100 == 0
    ensures c % 100 == 0 ==> c % 4 == 0
  {
    if c % 400 == 0 {
      assert c == 100 * (4 * (c / 400));
    }
    if c % 100 == 0 {
      assert c == 4 * (25 * (c / 100));
    }
  }

  lemma QuotientSteps(x: nat, n: nat)
    requires n == 4 || n == 100 || n == 400
    ensures (x + 1) / n == x / n + (if (x + 1) % n == 0 then 1 else 0)
  {
  }

  lemma {:induction false} YearsAreOrdered(a: nat, b: nat)
    requires 1 <= a < b
    ensures DaysBeforeYear(a) + YearLength(a) <= DaysBeforeYear(b)
    decreases b
  {
    if a < b - 1 {
      YearsAreOrdered(a, b - 1);
    }
  }

  lemma {:induction false} MonthsAreOrdered(y: nat, a: nat, b: nat)
    requires 1 <= a < b <= 12
    ensures DaysBeforeMonth(y, a) + DaysInMonth(y, a) <= DaysBeforeMonth(y, b)
    decreases b
  {
    if a < b - 1 {
      MonthsAreOrdered(y, a, b - 1);
    }
  }

  lemma OrdinalOfWithinYear(y: nat, m: nat, d: nat)
    requires y >= 1 && 1 <= m <= 12 && 1 <= d <= DaysInMonth(y, m)
    ensures DaysBeforeYear(y) < OrdinalOf(y, m, d) <= DaysBeforeYear(y) + YearLength(y)
  {
    if m < 12 {
      MonthsAreOrdered(y, m, 12);
    }
  }

  lemma OrdinalWithinYear(date: u32)
    requires ValidDate(date)
    ensures DaysBeforeYear(Year(date)) < Ordinal(date) <= DaysBeforeYear(Year(date)) + YearLength(Year(date))
  {
    OrdinalOfWithinYear(Year(date), Month(date), Day(date));
  }

  /** The digits of a yyyymmdd number. */
  lemma Digits(y: nat, m: nat, d: nat)
    requires m < 100 && d < 100 && y * 10000 + m * 100 + d < 0x1_0000_0000
    ensures var date := y * 10000 + m * 100 + d;
            Year(date) == y && Month(date) == m && Day(date) == d
  {
    var date := y * 10000 + m * 100 + d;
    QuotientUnique(date, 10000, y, m * 100 + d);
    QuotientUnique(m * 100 + d, 100, m, d);
    QuotientUnique(date, 100, y * 100 + m, d);
  }

  lemma QuotientUnique(x: nat, n: nat, q: nat, r: nat)
    requires n == 100 || n == 10000
    requires x == n * q + r && r < n
    ensures x / n == q && x % n == r
  {
  }

  lemma DateFromDigits(date: u32)
    ensures date == Year(date) * 10000 + Month(date) * 100 + Day(date)
    ensures Month(date) < 100 && Day(date) < 100
  {
    var low := date % 10000;
    assert date == 10000 * Year(date) + low;
    assert low == 100 * Month(date) + low % 100;
    QuotientUnique(date, 100, Year(date) * 100 + Month(date), low % 100);
  }

  lemma EarlierDigits(a: u32, b: u32)
    requires a < b
    ensures Year(a) < Year(b)
         || (Year(a) == Year(b) && Month(a) < Month(b))
         || (Year(a) == Year(b) && Month(a) == Month(b) && Day(a) < Day(b))
  {
    DateFromDigits(a);
    DateFromDigits(b);
  }

  lemma EarlierHasSmallerOrdinal(a: u32, b: u32)
    requires ValidDate(a) && ValidDate(b) && a < b
    ensures Ordinal(a) < Ordinal(b)
  {
    EarlierDigits(a, b);
    OrdinalWithinYear(a);
    OrdinalWithinYear(b);
    if Year(a) < Year(b) {
      YearsAreOrdered(Year(a), Year(b));
    } else if Month(a) < Month(b) {
      MonthsAreOrdered(Year(a), Month(a), Month(b));
    }
  }

  // ----- The coded functions agree with the ordinal -----

  lemma DateOrderIsOrdinalOrder(a: u32, b: u32)
    requires ValidDate(a) && ValidDate(b)
    ensures a < b <==> Ordinal(a) < Ordinal(b)
    ensures a == b <==> Ordinal(a) == Ordinal(b)
  {
    if a < b {
      EarlierHasSmallerOrdinal(a, b);
    } else if b < a {
      EarlierHasSmallerOrdinal(b, a);
    }
  }

  lemma DayOfYearIsOffset(date: u32)
    requires ValidDate(date)
    ensures GetDayOfYear(date) == Ordinal(date) - DaysBeforeYear(Year(date)) - 1
    ensures 0 <= GetDayOfYear(date) < YearLength(Year(date))
  {
    MonthStarts(Year(date));
    OrdinalWithinYear(date);
  }

  /** The date after (y, m, d) by the calendar. */
  function NextDay(y: nat, m: nat, d: nat): (r: (nat, nat, nat))
    requires 1 <= m <= 12
  {
    if d < DaysInMonth(y, m) then (y, m, d + 1)
    else if m < 12 then (y, m + 1, 1)
    else (y + 1, 1, 1)
  }

  lemma NextDayAddsOne(y: nat, m: nat, d: nat)
    requires y >= 1 && 1 <= m <= 12 && 1 <= d <= DaysInMonth(y, m)
    ensures var (y', m', d') := NextDay(y, m, d);
            y' >= 1 && 1 <= m' <= 12 && 1 <= d' <= DaysInMonth(y', m')
            && OrdinalOf(y', m', d') == OrdinalOf(y, m, d) + 1
  {
  }

  lemma TableIsDaysInMonth(y: u32, m: nat)
    requires 1 <= m <= 12
    ensures MonthTable(IsLeapYear(y))[m] == DaysInMonth(y, m)
  {
  }

  lemma NoYearAfterLast(date: u32)
    requires ValidDate(date)
    ensures Year(date) <= 429496
    ensures Year(date) == 429496 && Month(date) == 12 && Day(date) == 31 <==> date == LAST_DATE
    ensures date <= LAST_DATE
  {
  }

  lemma PackedDigits(y: nat, m: nat, d: nat)
    requires y <= 429496 && m <= 12 && d <= 31
    ensures Packed(y, m, d) == y * 10000 + m * 100 + d
    ensures Year(Packed(y, m, d)) == y && Month(Packed(y, m, d)) == m && Day(Packed(y, m, d)) == d
  {
    hide Year, Month, Day;
    Digits(y, m, d);
  }

  lemma TomorrowOfIsNextDay(y: u32, m: u32, d: u32)
    requires 1 <= y <= 429496 && 1 <= m <= 12 && 1 <= d <= DaysInMonth(y, m)
    requires !(y == 429496 && m == 12 && d == 31)
    ensures var (y', m', d') := NextDay(y, m, d);
            TomorrowOf(y, m, d) == Packed(y', m', d') && y' <= 429496
  {
    TableIsDaysInMonth(y, m);
  }

  lemma TomorrowIsNextDay(date: u32)
    requires ValidDate(date) && date < LAST_DATE
    ensures ValidDate(GetTomorrow(date))
    ensures Ordinal(GetTomorrow(date)) == Ordinal(date) + 1
  {
    NoYearAfterLast(date);
    var y, m, d := Year(date), Month(date), Day(date);
    TomorrowOfIsNextDay(y, m, d);
    NextDayAddsOne(y, m, d);
    var (y', m', d') := NextDay(y, m, d);
    PackedDigits(y', m', d');
  }

  /** The date before (y, m, d) by the calendar. */
  function PreviousDay(y: nat, m: nat, d: nat): (r: (nat, nat, nat))
    requires y >= 1 && 1 <= m <= 12 && d >= 1
  {
    if d > 1 then (y, m, d - 1)
    else if m > 1 then (y, m - 1, DaysInMonth(y, m - 1))
    else (y - 1, 12, 31)
  }

  lemma YesterdayOfIsPreviousDay(y: u32, m: u32, d: u32)
    requires 1 <= y <= 429496 && 1 <= m <= 12 && 1 <= d <= DaysInMonth(y, m)
    requires !(y == 1 && m == 1 && d == 1)
    ensures var (y', m', d') := PreviousDay(y, m, d);
            YesterdayOf(y, m, d) == Packed(y', m', d') && 1 <= y' <= 429496
            && 1 <= m' <= 12 && 1 <= d' <= DaysInMonth(y', m')
            && NextDay(y', m', d') == (y, m, d)
  {
  }

  lemma YesterdayIsPreviousDay(date: u32)
    requires ValidDate(date) && date > 10101
    ensures ValidDate(GetYesterday(date))
    ensures Ordinal(GetYesterday(date)) == Ordinal(date) - 1
  {
    NoYearAfterLast(date);
    NoDateBeforeFirst(date);
    var y, m, d := Year(date), Month(date), Day(date);
    YesterdayOfIsPreviousDay(y, m, d);
    var (y', m', d') := PreviousDay(y, m, d);
    NextDayAddsOne(y', m', d');
    PackedDigits(y', m', d');
  }

  lemma NoDateBeforeFirst(date: u32)
    requires ValidDate(date)
    ensures date >= 10101
    ensures Year(date) == 1 && Month(date) == 1 && Day(date) == 1 <==> date == 10101
  {
  }

  lemma YesterdayUndoesTomorrow(date: u32)
    requires ValidDate(date) && date < LAST_DATE
    ensures ValidDate(GetTomorrow(date)) && GetYesterday(GetTomorrow(date)) == date
  {
    TomorrowIsNextDay(date);
    var t := GetTomorrow(date);
    DateOrderIsOrdinalOrder(date, t);
    NoDateBeforeFirst(date);
    YesterdayIsPreviousDay(t);
    DateOrderIsOrdinalOrder(date, GetYesterday(t));
  }

  lemma TomorrowUndoesYesterday(date: u32)
    requires ValidDate(date) && date > 10101
    ensures ValidDate(GetYesterday(date)) && GetTomorrow(GetYesterday(date)) == date
  {
    YesterdayIsPreviousDay(date);
    var y := GetYesterday(date);
    DateOrderIsOrdinalOrder(y, date);
    NoYearAfterLast(date);
    TomorrowIsNextDay(y);
    DateOrderIsOrdinalOrder(date, GetTomorrow(y));
  }

  lemma LastDateWraps()
    ensures ValidDate(LAST_DATE) && GetTomorrow(LAST_DATE) == 2805
    ensures !ValidDate(2805)
  {
    hide Year, Month, Day, DaysInMonth, TomorrowOf;
    LastDateDigits(LAST_DATE);
    TomorrowOfLastDay(429496, 12, 31);
    DateFromDigits(2805);
  }

  lemma LastDateDigits(date: u32)
    requires date == LAST_DATE
    ensures Year(date) == 429496 && Month(date) == 12 && Day(date) == 31 && DaysInMonth(429496, 12) == 31
  {
    hide Year, Month, Day;
    Digits(429496, 12, 31);
  }

  lemma TomorrowOfLastDay(y: u32, m: u32, d: u32)
    requires y == 429496 && m == 12 && d == 31
    ensures TomorrowOf(y, m, d) == 2805
  {
    hide IsLeapYear;
  }

  lemma FirstDateStepsIntoYearZero()
    ensures ValidDate(10101) && GetYesterday(10101) == 1231
    ensures !ValidDate(1231)
  {
    Digits(1, 1, 1);
    Digits(0, 12, 31);
  }

  /** getTomorrow yields the next valid date exactly when that date fits in 32 bits, and
      getYesterday the previous one exactly when year 1 has a date before. */
  lemma NeighboursExistExactlyWhen(date: u32)
    requires ValidDate(date)
    ensures ValidDate(GetTomorrow(date)) && Ordinal(GetTomorrow(date)) == Ordinal(date) + 1 <==> date != LAST_DATE
    ensures ValidDate(GetYesterday(date)) && Ordinal(GetYesterday(date)) == Ordinal(date) - 1 <==> date != 10101
  {
    NoYearAfterLast(date);
    NoDateBeforeFirst(date);
    if date < LAST_DATE {
      TomorrowIsNextDay(date);
    } else {
      LastDateWraps();
    }
    if date > 10101 {
      YesterdayIsPreviousDay(date);
    } else {
      FirstDateStepsIntoYearZero();
    }
  }

  // ----- Week days -----

  lemma SameRemainder(a: int, b: int, q: int)
    requires a == b + 7 * q
    ensures a % 7 == b % 7
  {
  }

  lemma MarchShift(m: nat)
    requires 3 <= m <= 12
    ensures (2 * m + 3 * (m + 1) / 5 - MONTH_DAYS[m - 1] + 366) % 7 == 0
  {
  }

  lemma OrdinalFromMarch(y: nat, m: nat, d: nat)
    requires y >= 1 && 3 <= m <= 12
    ensures OrdinalOf(y, m, d) == 365 * (y - 1) + LeapYears(y) + MONTH_DAYS[m - 1] + d
  {
    DaysBeforeYearByLeapYears(y);
    MonthStarts(y);
  }

  lemma FormulaInMarchOrLater(y: nat, m: nat, d: nat)
    requires y >= 1 && 3 <= m <= 12
    ensures WeekFormula(y, m, d) % 7 == (OrdinalOf(y, m, d) - 1) % 7
  {
    hide OrdinalOf, LeapYears;
    OrdinalFromMarch(y, m, d);
    LeapYearsClosedForm(y);
    MarchShift(m);
    var shift := 2 * m + 3 * (m + 1) / 5 - MONTH_DAYS[m - 1] + 366;
    SameRemainder(WeekFormula(y, m, d), OrdinalOf(y, m, d) - 1, shift / 7 - 52 * y);
  }

  lemma FormulaInJanuaryOrFebruary(y: nat, m: nat, d: nat)
    requires y >= 1 && 1 <= m <= 2
    ensures WeekFormula(y - 1, m + 12, d) % 7 == (OrdinalOf(y, m, d) - 1) % 7
  {
    hide OrdinalOf, WeekFormula, LeapYears;
    var c := y - 1;
    OrdinalBeforeMarch(y, m, d);
    FormulaByLeapYears(c, m, d);
    var q := if m == 1 then 5 else 1;
    SameRemainder(WeekFormula(c, m + 12, d), OrdinalOf(y, m, d) - 1, q - 52 * c);
  }

  lemma OrdinalBeforeMarch(y: nat, m: nat, d: nat)
    requires y >= 1 && 1 <= m <= 2
    ensures OrdinalOf(y, m, d) == 365 * (y - 1) + LeapYears(y - 1) + 31 * (m - 1) + d
  {
    hide DaysBeforeYear, LeapYears;
    DaysBeforeYearByLeapYears(y);
    assert DaysBeforeMonth(y, 2) == 31;
  }

  lemma FormulaByLeapYears(c: nat, m: nat, d: nat)
    requires 1 <= m <= 2
    ensures WeekFormula(c, m + 12, d) == d + (if m == 1 then 34 else 37) + c + LeapYears(c)
  {
    LeapYearsClosedForm(c);
  }

  lemma FormulaFits(y: nat, m: nat, d: nat)
    requires y <= 429496 && m <= 14 && d < 100
    ensures W(WeekFormula(y, m, d)) == WeekFormula(y, m, d)
  {
  }

  lemma WeekDayOfIsOrdinalModulo7(y: u32, m: u32, d: u32)
    requires 1 <= y <= 429496 && 1 <= m <= 12 && d < 100
    ensures WeekDayOf(y, m, d) == (OrdinalOf(y, m, d) - 1) % 7 + 1
  {
    hide WeekFormula, OrdinalOf, W;
    if m <= 2 {
      FormulaInJanuaryOrFebruary(y, m, d);
      FormulaFits(y - 1, m + 12, d);
    } else {
      FormulaInMarchOrLater(y, m, d);
      FormulaFits(y, m, d);
    }
  }

  /** The week day formula: ordinal modulo 7, counted 1 (Monday) to 7 (Sunday). */
  lemma WeekDayIsOrdinalModulo7(date: u32)
    requires ValidDate(date)
    ensures GetWeekDay(date) == (Ordinal(date) - 1) % 7 + 1
  {
    NoYearAfterLast(date);
    WeekDayOfIsOrdinalModulo7(Year(date), Month(date), Day(date));
  }

  /** The formula needs a year before January: in year 0 the uint32_t year wraps, and
      29 February and 1 March get week days 6 and 3. */
  lemma YearZeroWeekDaysAreWrong()
    ensures WeekDayOf(0, 2, 29) == 6 && WeekDayOf(0, 3, 1) == 3
  {
    assert WeekFormula(0xFFFF_FFFF, 14, 29) == 5336496930;
    assert W(5336496930) == 1041529634;
    assert WeekFormula(0, 3, 1) == 9;
  }
}
