/** getWeekNumber against the calendar week rule of section 2.2.10 of ISO 8601:2004: a week
    belongs to the year that holds its Thursday, and is numbered by that Thursday. */
module WeekNumber {
  import opened Calendar

  /** The ordinal of the Thursday of the date's Monday-to-Sunday week. */
  function ThursdayOf(date: u32): int
    requires ValidDate(date)
  {
    Ordinal(date) - (Ordinal(date) - 1) % 7 + 3
  }

  /** Week `week` of `year` holds the date. */
  predicate IsWeekOf(date: u32, year: nat, week: int)
    requires ValidDate(date)
  {
    && year >= 1
    && DaysBeforeYear(year) < ThursdayOf(date) <= DaysBeforeYear(year) + YearLength(year)
    && week == (ThursdayOf(date) - DaysBeforeYear(year) - 1) / 7 + 1
  }

  /** At most one year and week number satisfy the rule. */
  lemma WeekIsUnique(date: u32, y1: nat, w1: int, y2: nat, w2: int)
    requires ValidDate(date) && IsWeekOf(date, y1, w1) && IsWeekOf(date, y2, w2)
    ensures y1 == y2 && w1 == w2 && 1 <= w1 <= 53
  {
    if y1 < y2 {
      YearsAreOrdered(y1, y2);
    } else if y2 < y1 {
      YearsAreOrdered(y2, y1);
    }
    YearLengthIs(y1);
  }

  // ----- The decision on day numbers alone -----

  /** getWeekNumber after its week days and day numbers are known: first and last are the
      week days of 1 January and 31 December, no and lastNo the 0-based day numbers. */
  function WeekFrom(year: u32, first: int, last: int, no: int, lastNo: int): (r: (int, int))
  {
    var (wk, y) :=
      if first <= 4 then ((no + (first - 1)) / 7 + 1, year)
      else if no < 7 - first + 1 then
        ((if first == 5 then 53
          else if first == 7 then 52
          else if first == 6 && year > 0 && IsLeapYear(year - 1) then 53
          else if first == 6 then 52
          else 0), year - 1)
      else ((no - (7 - first + 1)) / 7 + 1, year);
    if last < 4 && no >= lastNo - last + 1 then (1, year + 1) else (wk, y)
  }

  /** Week day of the day numbered no (from 0) in a year that starts on week day first. */
  function WeekDayInYear(first: int, no: int): int {
    (first - 1 + no) % 7 + 1
  }

  /** Day number of the Thursday of that day's week: negative in the year before, beyond the
      last day in the year after. */
  function ThursdayNo(first: int, no: int): int {
    no - (first - 1 + no) % 7 + 3
  }

  lemma WeekFromIsThursdayRule(year: u32, first: int, no: int, length: int, before: int)
    requires year >= 1 && 1 <= first <= 7 && 0 <= no < length
    requires length == (if IsLeapYear(year) then 366 else 365)
    requires before == (if year > 1 && IsLeapYear(year - 1) then 366 else 365)
    requires year == 1 ==> first == 1
    ensures var last := WeekDayInYear(first, length - 1);
            var t := ThursdayNo(first, no);
            WeekFrom(year, first, last, no, length - 1) ==
              if t < 0 then ((t + before) / 7 + 1, year - 1)
              else if t < length then (t / 7 + 1, year)
              else (1, year + 1)
  {
  }

  lemma WeekFromIsThursday(date: u32)
    requires ValidDate(date)
    ensures var first := DaysBeforeYear(Year(date)) % 7 + 1;
            var lastNo := YearLength(Year(date)) - 1;
            var (wk, y) := WeekFrom(Year(date), first, WeekDayInYear(first, lastNo), GetDayOfYear(date), lastNo);
            y >= 1 && IsWeekOf(date, y, wk)
  {
    hide Year, Month, Day, OrdinalOf, WeekDayInYear, WeekFrom, ThursdayOf, ThursdayNo, GetDayOfYear, YearLength;
    var y := Year(date);
    var first := DaysBeforeYear(y) % 7 + 1;
    DayOfYearIsOffset(date);
    YearLengthIs(y);
    if y > 1 {
      YearLengthIs(y - 1);
    }
    var no, length := GetDayOfYear(date), YearLength(y);
    WeekFromIsThursdayRule(y, first, no, length, if y > 1 then YearLength(y - 1) else 365);
    ThursdayNoIsNear(first, no);
    ThursdayNoIsThursday(date);
    RuleInOrdinals(y, ThursdayNo(first, no), ThursdayOf(date));
  }

  lemma ThursdayNoIsNear(first: int, no: int)
    requires 1 <= first <= 7 && no >= 0
    ensures no - 3 <= ThursdayNo(first, no) <= no + 3
    ensures first == 1 ==> ThursdayNo(first, no) >= 0
  {
  }

  lemma FirstDayOrdinal(y: nat)
    requires y >= 1
    ensures OrdinalOf(y, 1, 1) == DaysBeforeYear(y) + 1
  {
  }

  lemma LastDayOrdinal(y: nat)
    requires y >= 1
    ensures OrdinalOf(y, 12, 31) == DaysBeforeYear(y) + YearLength(y)
  {
  }

  /** First and last day of the date's year, as getWeekNumber looks at them. */
  lemma YearEnds(date: u32)
    requires ValidDate(date)
    ensures var y := Year(date);
            var jan1, dec31 := Packed(y, 1, 1), Packed(y, 12, 31);
            && ValidDate(jan1) && GetWeekDay(jan1) == DaysBeforeYear(y) % 7 + 1
            && ValidDate(dec31) && GetDayOfYear(dec31) == YearLength(y) - 1
            && GetWeekDay(dec31) == WeekDayInYear(GetWeekDay(jan1), YearLength(y) - 1)
  {
    hide Year, Month, Day, WeekDayOf, Packed, OrdinalOf, YearLength;
    var y := Year(date);
    NoYearAfterLast(date);
    PackedDigits(y, 1, 1);
    PackedDigits(y, 12, 31);
    FirstDayOrdinal(y);
    LastDayOrdinal(y);
    var jan1, dec31 := Packed(y, 1, 1), Packed(y, 12, 31);
    WeekDayIsOrdinalModulo7(jan1);
    WeekDayIsOrdinalModulo7(dec31);
    DayOfYearIsOffset(dec31);
    SameWeekDay(DaysBeforeYear(y), YearLength(y) - 1);
  }

  lemma SameWeekDay(start: nat, no: int)
    ensures (start % 7 + no) % 7 == (start + no) % 7
  {
  }

  /** The Thursday's day number and the Thursday's ordinal are the same day. */
  lemma ThursdayNoIsThursday(date: u32)
    requires ValidDate(date)
    ensures var start := DaysBeforeYear(Year(date));
            ThursdayOf(date) == start + 1 + ThursdayNo(start % 7 + 1, GetDayOfYear(date))
  {
    hide Year, Month, Day, Ordinal, GetDayOfYear, DaysBeforeYear, YearLength;
    DayOfYearIsOffset(date);
    SameWeekDay(DaysBeforeYear(Year(date)), GetDayOfYear(date));
  }

  /** The Thursday rule on day numbers, read in ordinals. */
  lemma RuleInOrdinals(y: nat, t: int, thursday: int)
    requires y >= 1 && thursday == DaysBeforeYear(y) + 1 + t
    requires -3 <= t < YearLength(y) + 3 && (y == 1 ==> t >= 0)
    ensures t < 0 ==>
      && y > 1 && DaysBeforeYear(y - 1) < thursday <= DaysBeforeYear(y - 1) + YearLength(y - 1)
      && (t + YearLength(y - 1)) / 7 + 1 == (thursday - DaysBeforeYear(y - 1) - 1) / 7 + 1
    ensures 0 <= t < YearLength(y) ==>
      && DaysBeforeYear(y) < thursday <= DaysBeforeYear(y) + YearLength(y)
      && t / 7 + 1 == (thursday - DaysBeforeYear(y) - 1) / 7 + 1
    ensures t >= YearLength(y) ==>
      && DaysBeforeYear(y + 1) < thursday <= DaysBeforeYear(y + 1) + YearLength(y + 1)
      && 1 == (thursday - DaysBeforeYear(y + 1) - 1) / 7 + 1
  {
  }

  /** For every valid date the year and week number are those of its Thursday. */
  method GetWeekNumber(date: u32) returns (wkNo: int, year: int)
    requires ValidDate(date)
    ensures year >= 1 && IsWeekOf(date, year, wkNo)
  {
    hide Year, Month, Day, WeekDayOf, Packed, OrdinalOf, YearLength, ThursdayOf, ThursdayNo, WeekFrom;
    hide GetWeekDay, GetDayOfYear;
    YearEnds(date);
    DayOfYearIsOffset(date);
    var yearCur := Year(date);
    var firstday := Packed(yearCur, 1, 1);
    var firstdayWeek := GetWeekDay(firstday);
    if firstdayWeek == 0 {
      firstdayWeek := 7;
    }
    var lastday := Packed(yearCur, 12, 31);
    var lastdayWeek := GetWeekDay(lastday);
    var lastdayNo := GetDayOfYear(lastday);
    if lastdayWeek == 0 {
      lastdayWeek := 7;
    }
    var dateNo := GetDayOfYear(date);
    WeekFromIsThursday(date);
    wkNo, year := WeekByCases(yearCur, firstdayWeek, lastdayWeek, dateNo, lastdayNo);
  }

  /** The branches that follow, on the numbers computed above. */
  method WeekByCases(yearCur: u32, firstdayWeek: int, lastdayWeek: int, dateNo: int, lastdayNo: int)
      returns (wkNo: int, year: int)
    requires yearCur >= 1
    ensures (wkNo, year) == WeekFrom(yearCur, firstdayWeek, lastdayWeek, dateNo, lastdayNo)
  {
    wkNo := 0;
    year := yearCur;
    if firstdayWeek <= 4 {
      wkNo := (dateNo + (firstdayWeek - 1)) / 7 + 1;
    } else {
      if dateNo < 7 - firstdayWeek + 1 {
        if firstdayWeek == 5 {
          wkNo := 53;
        } else if firstdayWeek == 7 {
          wkNo := 52;
        } else if firstdayWeek == 6 {
          if IsLeapYear(yearCur - 1) {
            wkNo := 53;
          } else {
            wkNo := 52;
          }
        }
        year := yearCur - 1;
      } else {
        wkNo := (dateNo - (7 - firstdayWeek + 1)) / 7 + 1;
      }
    }
    if lastdayWeek < 4 && dateNo >= lastdayNo - lastdayWeek + 1 {
      wkNo := 1;
      year := yearCur + 1;
    }
  }
}
