/** getMkTime: seconds since the epoch from a yyyymmdd date and an hhmmss time. */
module EpochTime {
  import opened Wrappers
  import opened Calendar

  /** The start of each year as the code tabulates it; None where at() throws. */
  function YearSeconds(year: u32): Option<int> {
    match year
    case 1971 => Some(31507200)
    case 1972 => Some(63043200)
    case 1973 => Some(94665600)
    case 1974 => Some(126201600)
    case 1975 => Some(157737600)
    case 1976 => Some(189273600)
    case 1977 => Some(220896000)
    case 1978 => Some(252432000)
    case 1979 => Some(283968000)
    case 1980 => Some(315504000)
    case 1981 => Some(347126400)
    case 1982 => Some(378662400)
    case 1983 => Some(410198400)
    case 1984 => Some(441734400)
    case 1985 => Some(473356800)
    case 1986 => Some(504892800)
    case 1987 => Some(536428800)
    case 1988 => Some(567964800)
    case 1989 => Some(599587200)
    case 1990 => Some(631123200)
    case 1991 => Some(662659200)
    case 1992 => Some(694195200)
    case 1993 => Some(725817600)
    case 1994 => Some(757353600)
    case 1995 => Some(788889600)
    case 1996 => Some(820425600)
    case 1997 => Some(852048000)
    case 1998 => Some(883584000)
    case 1999 => Some(915120000)
    case 2000 => Some(946656000)
    case 2001 => Some(978278400)
    case 2002 => Some(1009814400)
    case 2003 => Some(1041350400)
    case 2004 => Some(1072886400)
    case 2005 => Some(1104508800)
    case 2006 => Some(1136044800)
    case 2007 => Some(1167580800)
    case 2008 => Some(1199116800)
    case 2009 => Some(1230739200)
    case 2010 => Some(1262275200)
    case 2011 => Some(1293811200)
    case 2012 => Some(1325347200)
    case 2013 => Some(1356969600)
    case 2014 => Some(1388505600)
    case 2015 => Some(1420041600)
    case 2016 => Some(1451577600)
    case 2017 => Some(1483200000)
    case 2018 => Some(1514736000)
    case 2019 => Some(1546272000)
    case 2020 => Some(1577808000)
    case 2021 => Some(1609430400)
    case 2022 => Some(1640966400)
    case 2023 => Some(1672502400)
    case 2024 => Some(1704038400)
    case 2025 => Some(1735660800)
    case 2026 => Some(1767196800)
    case 2027 => Some(1798732800)
    case 2028 => Some(1830268800)
    case 2029 => Some(1861891200)
    case 2030 => Some(1893427200)
    case 2031 => Some(1924963200)
    case 2032 => Some(1956499200)
    case 2033 => Some(1988121600)
    case 2034 => Some(2019657600)
    case 2035 => Some(2051193600)
    case 2036 => Some(2082729600)
    case 2037 => Some(2114352000)
    case 2038 => Some(2145888000)
    case 2039 => Some(2177424000)
    case 2040 => Some(2208960000)
    case _ => None
  }

  function GetMkTime(date: u32, hms: u32): Option<int>
    requires 1 <= Month(date) <= 12
  {
    match YearSeconds(Year(date))
    case Some(start) => Some(SecondsAfter(start, date, hms))
    case None => None
  }

  function SecondsAfter(start: int, date: u32, hms: u32): int
    requires 1 <= Month(date) <= 12
  {
    var h, m, s := hms / 10000, hms / 100 % 100, hms % 100;
    start + W(W(GetDayOfYear(date)) * 86400) + W(h * 3600) + W(m * 60) + s
  }

  function RegularStart(y: int): int {
    86400 * (365 * (y - 1970) + (y - 1969) / 4) - 28800
  }

  lemma TableIsRegular(y: u32)
    ensures YearSeconds(y) == if 1971 <= y <= 2040 then Some(RegularStart(y)) else None
  {
  }

  /** The ordinal of 1 January 1970. */
  const EPOCH_ORDINAL := 719163

  lemma LeapYearsSince1969(y: nat)
    requires 1969 < y <= 2040
    ensures LeapYears(y - 1) == 477 + (y - 1969) / 4
  {
    LeapYearsClosedForm(y - 1);
    assert (y - 1) / 100 - (y - 1) / 400 == 15;
    assert (y - 1) / 4 == 492 + (y - 1969) / 4;
  }

  lemma DaysBeforeRecentYear(y: nat)
    requires 1969 < y <= 2040
    ensures DaysBeforeYear(y) == EPOCH_ORDINAL - 366 + 365 * (y - 1969) + (y - 1969) / 4
  {
    DaysBeforeYearByLeapYears(y);
    LeapYearsSince1969(y);
  }

  /** The date 19700101 (written as a range) has that ordinal. */
  lemma EpochDay(date: u32)
    requires ValidDate(date) && 19700100 < date < 19700102
    ensures Ordinal(date) == EPOCH_ORDINAL
  {
    DateFromDigits(date);
    DaysBeforeRecentYear(Year(date));
  }

  lemma RegularStartIsMidnightInUtcPlus8(y: u32)
    requires 1971 <= y <= 2040
    ensures RegularStart(y) == 86400 * (DaysBeforeYear(y) + 1 - EPOCH_ORDINAL) - 28800
  {
    DaysBeforeRecentYear(y);
  }

  lemma SecondsAfterFits(start: int, date: u32, hms: u32)
    requires ValidDate(date)
    ensures SecondsAfter(start, date, hms) ==
      start + 86400 * GetDayOfYear(date) + hms / 10000 * 3600 + hms / 100 % 100 * 60 + hms % 100
  {
    DayOfYearIsOffset(date);
    YearLengthIs(Year(date));
    SecondsOfTheDayFit(GetDayOfYear(date), hms);
  }

  lemma SecondsOfTheDayFit(day: nat, hms: u32)
    requires day < 366
    ensures W(W(day) * 86400) == day * 86400
    ensures W(hms / 10000 * 3600) == hms / 10000 * 3600
    ensures W(hms / 100 % 100 * 60) == hms / 100 % 100 * 60
  {
  }

  /** The seconds that getMkTime promises: days since 1 January 1970, less the 8 hours of
      UTC+8, plus the time of day. */
  function SecondsSinceEpoch(date: u32, hms: u32): int
    requires ValidDate(date)
  {
    86400 * (Ordinal(date) - EPOCH_ORDINAL) - 28800 + hms / 10000 * 3600 + hms / 100 % 100 * 60 + hms % 100
  }

  lemma SecondsAfterIsSinceEpoch(date: u32, hms: u32)
    requires ValidDate(date) && 1971 <= Year(date) <= 2040
    ensures SecondsAfter(RegularStart(Year(date)), date, hms) == SecondsSinceEpoch(date, hms)
  {
    SecondsAfterFits(RegularStart(Year(date)), date, hms);
    RegularStartIsMidnightInUtcPlus8(Year(date));
    DayOfYearIsOffset(date);
  }

  /** On every valid date: the table years, and only they, have a value, and it is the
      seconds since the epoch. */
  lemma MkTimeCountsSeconds(date: u32, hms: u32)
    requires ValidDate(date)
    ensures GetMkTime(date, hms) ==
      if 1971 <= Year(date) <= 2040 then Some(SecondsSinceEpoch(date, hms)) else None
  {
    TableIsRegular(Year(date));
    if 1971 <= Year(date) <= 2040 {
      SecondsAfterIsSinceEpoch(date, hms);
    }
  }
}
