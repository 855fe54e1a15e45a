/** The searches and listings over trading days, for an arbitrary finite holiday set. */
module TradingDays {
  import opened Calendar

  predicate IsTradingDay(holidays: set<u32>, date: u32) {
    GetWeekDay(date) <= 5 && date !in holidays
  }

  /** A trading day of the calendar: Monday to Friday by the day ordinal, whose day 1 is a
      Monday, and no holiday. */
  predicate TradingDay(holidays: set<u32>, date: u32) {
    ValidDate(date) && (Ordinal(date) - 1) % 7 < 5 && date !in holidays
  }

  /** isTradingDay decides it, on every valid date and for every holiday set. */
  lemma CodedTestIsRight(holidays: set<u32>, date: u32)
    requires ValidDate(date)
    ensures IsTradingDay(holidays, date) <==> TradingDay(holidays, date)
  {
    WeekDayIsOrdinalModulo7(date);
  }

  // ----- What the searches promise -----

  ghost predicate IsNextTradingDay(holidays: set<u32>, date: u32, r: u32) {
    && TradingDay(holidays, r) && r > date
    && forall x: u32 {:trigger TradingDay(holidays, x)} :: TradingDay(holidays, x) && x > date ==> x >= r
  }

  ghost predicate IsLastTradingDay(holidays: set<u32>, date: u32, r: u32) {
    && TradingDay(holidays, r) && r < date
    && forall x: u32 {:trigger TradingDay(holidays, x)} :: TradingDay(holidays, x) && x < date ==> x <= r
  }

  ghost predicate IsNearestBefore(holidays: set<u32>, date: u32, r: u32) {
    && TradingDay(holidays, r) && r <= date
    && forall x: u32 {:trigger TradingDay(holidays, x)} :: TradingDay(holidays, x) && x <= date ==> x <= r
  }

  ghost predicate IsNearestAfter(holidays: set<u32>, date: u32, r: u32) {
    && TradingDay(holidays, r) && r >= date
    && forall x: u32 {:trigger TradingDay(holidays, x)} :: TradingDay(holidays, x) && x >= date ==> x >= r
  }

  // ----- Walking one day at a time skips nothing -----

  lemma NothingBetweenNeighbours(date: u32, x: u32)
    requires ValidDate(date) && date < LAST_DATE && ValidDate(x)
    ensures ValidDate(GetTomorrow(date)) && date < GetTomorrow(date) <= LAST_DATE
    ensures Ordinal(GetTomorrow(date)) == Ordinal(date) + 1
    ensures x > date <==> x >= GetTomorrow(date)
  {
    hide Year, Month, Day, WeekDayOf, TomorrowOf, YesterdayOf, OrdinalOf, DaysInMonth, IsTradingDay;
    TomorrowIsNextDay(date);
    var t := GetTomorrow(date);
    DateOrderIsOrdinalOrder(date, t);
    DateOrderIsOrdinalOrder(date, x);
    DateOrderIsOrdinalOrder(x, t);
    NoYearAfterLast(t);
  }

  lemma NothingBetweenBackwards(date: u32, x: u32)
    requires ValidDate(date) && date > 10101 && ValidDate(x)
    ensures ValidDate(GetYesterday(date)) && 10101 <= GetYesterday(date) < date
    ensures Ordinal(GetYesterday(date)) == Ordinal(date) - 1
    ensures x < date <==> x <= GetYesterday(date)
  {
    hide Year, Month, Day, WeekDayOf, TomorrowOf, YesterdayOf, OrdinalOf, DaysInMonth, IsTradingDay;
    YesterdayIsPreviousDay(date);
    var y := GetYesterday(date);
    DateOrderIsOrdinalOrder(y, date);
    DateOrderIsOrdinalOrder(x, date);
    DateOrderIsOrdinalOrder(y, x);
    NoDateBeforeFirst(y);
  }

  /** The search ends when some later date is a trading day. Every valid date is at most
      LAST_DATE, so that is also when its answer exists. */
  method GetNextTradingDay(holidays: set<u32>, date: u32) returns (ret: u32)
    requires ValidDate(date)
    requires exists x: u32 :: TradingDay(holidays, x) && x > date
    ensures IsNextTradingDay(holidays, date, ret)
  {
    hide Year, Month, Day, WeekDayOf, TomorrowOf, YesterdayOf, OrdinalOf, DaysInMonth, IsTradingDay;
    ghost var goal: u32 :| TradingDay(holidays, goal) && goal > date;
    ret := date;
    while true
      invariant ValidDate(ret) && date <= ret < goal
      invariant forall x: u32 {:trigger TradingDay(holidays, x)} :: TradingDay(holidays, x) && x > date ==> x > ret
      decreases goal - ret
    {
      NoYearAfterLast(goal);
      ghost var before := ret;
      NothingBetweenNeighbours(ret, goal);
      ret := GetTomorrow(ret);
      forall x: u32 {:trigger TradingDay(holidays, x)} | TradingDay(holidays, x) && x > date ensures x >= ret {
        NothingBetweenNeighbours(before, x);
      }
      if ret <= 0 {
        break;
      }
      CodedTestIsRight(holidays, ret);
      if IsTradingDay(holidays, ret) {
        return;
      }
      assert TradingDay(holidays, goal);
    }
  }

  method GetLastTradingDate(holidays: set<u32>, date: u32) returns (ret: u32)
    requires ValidDate(date)
    requires exists x: u32 :: TradingDay(holidays, x) && x < date
    ensures IsLastTradingDay(holidays, date, ret)
  {
    hide Year, Month, Day, WeekDayOf, TomorrowOf, YesterdayOf, OrdinalOf, DaysInMonth, IsTradingDay;
    ghost var goal: u32 :| TradingDay(holidays, goal) && goal < date;
    ret := date;
    while true
      invariant ValidDate(ret) && goal < ret <= date
      invariant forall x: u32 {:trigger TradingDay(holidays, x)} :: TradingDay(holidays, x) && x < date ==> x < ret
      decreases ret - goal
    {
      NoDateBeforeFirst(goal);
      ghost var before := ret;
      NothingBetweenBackwards(ret, goal);
      ret := GetYesterday(ret);
      forall x: u32 {:trigger TradingDay(holidays, x)} | TradingDay(holidays, x) && x < date ensures x <= ret {
        NothingBetweenBackwards(before, x);
      }
      if ret <= 0 {
        break;
      }
      CodedTestIsRight(holidays, ret);
      if IsTradingDay(holidays, ret) {
        return;
      }
      assert TradingDay(holidays, goal);
    }
  }

  /** `today` stands for the system date that replaces a zero argument. */
  method GetNearestTradingDay(holidays: set<u32>, curdate: u32, direction: int, today: u32) returns (date: u32)
    requires ValidDate(if curdate == 0 then today else curdate)
    requires var from := if curdate == 0 then today else curdate;
      if direction > 0 then exists x: u32 :: TradingDay(holidays, x) && x >= from
      else exists x: u32 :: TradingDay(holidays, x) && x <= from
    ensures var from := if curdate == 0 then today else curdate;
      if direction > 0 then IsNearestAfter(holidays, from, date) else IsNearestBefore(holidays, from, date)
  {
    hide Year, Month, Day, WeekDayOf, TomorrowOf, YesterdayOf, OrdinalOf, DaysInMonth, IsTradingDay;
    ghost var from := if curdate == 0 then today else curdate;
    date := curdate;
    if date == 0 {
      date := today;
    }
    CodedTestIsRight(holidays, date);
    if direction > 0 {
      ghost var goal: u32 :| TradingDay(holidays, goal) && goal >= from;
      while IsTradingDay(holidays, date) == false
        invariant ValidDate(date) && from <= date <= goal
        invariant IsTradingDay(holidays, date) <==> TradingDay(holidays, date)
        invariant forall x: u32 {:trigger TradingDay(holidays, x)} :: TradingDay(holidays, x) && x >= from ==> x >= date
        decreases goal - date
      {
        NoYearAfterLast(goal);
        forall x: u32 {:trigger TradingDay(holidays, x)} | TradingDay(holidays, x) && x >= from
          ensures x >= GetTomorrow(date)
        {
          NothingBetweenNeighbours(date, x);
        }
        NothingBetweenNeighbours(date, goal);
        date := GetTomorrow(date);
        CodedTestIsRight(holidays, date);
      }
    } else {
      ghost var goal: u32 :| TradingDay(holidays, goal) && goal <= from;
      while IsTradingDay(holidays, date) == false
        invariant ValidDate(date) && goal <= date <= from
        invariant IsTradingDay(holidays, date) <==> TradingDay(holidays, date)
        invariant forall x: u32 {:trigger TradingDay(holidays, x)} :: TradingDay(holidays, x) && x <= from ==> x <= date
        decreases date - goal
      {
        NoDateBeforeFirst(goal);
        forall x: u32 {:trigger TradingDay(holidays, x)} | TradingDay(holidays, x) && x <= from
          ensures x <= GetYesterday(date)
        {
          NothingBetweenBackwards(date, x);
        }
        NothingBetweenBackwards(date, goal);
        date := GetYesterday(date);
        CodedTestIsRight(holidays, date);
      }
    }
  }

  /** One step forward and one step back: the last trading day before the next one is the
      nearest trading day on or before the start, hence the start itself when it trades. */
  lemma LastOfNextIsNearestBefore(holidays: set<u32>, date: u32, next: u32, last: u32, nearest: u32)
    requires ValidDate(date)
    requires IsNextTradingDay(holidays, date, next)
    requires IsLastTradingDay(holidays, next, last)
    requires IsNearestBefore(holidays, date, nearest)
    ensures last == nearest
    ensures TradingDay(holidays, date) ==> last == date
  {
  }

  /** Three free days in a row always hold a trading day, so a search fails only where
      holidays reach the end of the representable calendar. */
  lemma ThreeFreeDaysHoldATradingDay(holidays: set<u32>, date: u32)
    requires ValidDate(date) && date < LAST_DATE && GetTomorrow(date) < LAST_DATE
    requires ValidDate(GetTomorrow(date))
    requires date !in holidays && GetTomorrow(date) !in holidays && GetTomorrow(GetTomorrow(date)) !in holidays
    ensures exists x: u32 :: TradingDay(holidays, x) && x >= date
  {
    hide Year, Month, Day, WeekDayOf, TomorrowOf, YesterdayOf, OrdinalOf, DaysInMonth, IsTradingDay;
    var t := GetTomorrow(date);
    NothingBetweenNeighbours(date, date);
    var u := GetTomorrow(t);
    NothingBetweenNeighbours(t, t);
    assert TradingDay(holidays, date) || TradingDay(holidays, t) || TradingDay(holidays, u);
  }

  // ----- Listings -----

  /** The dates the loop of GenNatureDay visits. */
  function DaysFrom(start: u32, end: u32): (days: seq<u32>)
    requires ValidDate(start) && end < LAST_DATE
    decreases LAST_DATE - start
  {
    if start > end then []
    else
      NothingBetweenNeighbours(start, start);
      [start] + DaysFrom(GetTomorrow(start), end)
  }

  function TradingOnly(holidays: set<u32>, days: seq<u32>): seq<u32> {
    if days == [] then []
    else (if TradingDay(holidays, days[0]) then [days[0]] else []) + TradingOnly(holidays, days[1..])
  }

  ghost predicate Increasing(days: seq<u32>) {
    forall i, j :: 0 <= i < j < |days| ==> days[i] < days[j]
  }

  /** DaysFrom is the strictly increasing list of exactly the valid dates in range; the end
      need not be a date. */
  lemma {:induction false} DaysFromIsTheRange(start: u32, end: u32)
    requires ValidDate(start) && end < LAST_DATE
    ensures Increasing(DaysFrom(start, end))
    ensures forall x: u32 {:trigger x in DaysFrom(start, end)} ::
              x in DaysFrom(start, end) <==> ValidDate(x) && start <= x <= end
    decreases LAST_DATE - start
  {
    hide Year, Month, Day, WeekDayOf, TomorrowOf, YesterdayOf, OrdinalOf, DaysInMonth, IsTradingDay;
    if start <= end {
      NothingBetweenNeighbours(start, start);
      var t := GetTomorrow(start);
      DaysFromIsTheRange(t, end);
      var rest := DaysFrom(t, end);
      assert DaysFrom(start, end) == [start] + rest;
      forall x: u32 {:trigger x in DaysFrom(start, end)}
        ensures x in DaysFrom(start, end) <==> ValidDate(x) && start <= x <= end
      {
        assert x in DaysFrom(start, end) <==> x == start || x in rest;
        if ValidDate(x) {
          NothingBetweenNeighbours(start, x);
        }
      }
      forall j | 0 <= j < |rest| ensures start < rest[j] {
        assert rest[j] in rest;
      }
    }
  }

  lemma {:induction false} TradingOnlyKeepsOrder(holidays: set<u32>, days: seq<u32>)
    requires Increasing(days)
    ensures Increasing(TradingOnly(holidays, days))
    ensures forall x :: x in TradingOnly(holidays, days) <==> x in days && TradingDay(holidays, x)
  {
    if days != [] {
      var rest := days[1..];
      TradingOnlyKeepsOrder(holidays, rest);
      assert days == [days[0]] + rest;
      var tail := TradingOnly(holidays, rest);
      forall j | 0 <= j < |tail| ensures days[0] < tail[j] {
        assert tail[j] in rest;
      }
    }
  }

  lemma {:induction false} TradingOnlySnoc(holidays: set<u32>, days: seq<u32>, x: u32)
    ensures TradingOnly(holidays, days + [x]) ==
      TradingOnly(holidays, days) + (if TradingDay(holidays, x) then [x] else [])
  {
    hide TradingDay, TradingOnly;
    if days == [] {
      assert days + [x] == [x] + days;
      TradingOnlyFirst(holidays, x, days);
      NothingToKeep(holidays);
    } else {
      var d, rest := days[0], days[1..];
      assert days == [d] + rest && days + [x] == [d] + (rest + [x]);
      TradingOnlyFirst(holidays, d, rest);
      TradingOnlyFirst(holidays, d, rest + [x]);
      TradingOnlySnoc(holidays, rest, x);
    }
  }

  lemma TradingOnlyFirst(holidays: set<u32>, d: u32, rest: seq<u32>)
    ensures TradingOnly(holidays, [d] + rest) ==
      (if TradingDay(holidays, d) then [d] else []) + TradingOnly(holidays, rest)
  {
    hide TradingDay;
    assert ([d] + rest)[1..] == rest;
  }

  lemma NothingToKeep(holidays: set<u32>)
    ensures TradingOnly(holidays, []) == []
  {
  }

  /** The dates listed by GenNatureDay and by GenTradingDay are determined: the valid dates
      in range, and those of them that trade, each once and in order. */
  lemma ListingsAreExact(holidays: set<u32>, start: u32, end: u32)
    requires ValidDate(start) && end < LAST_DATE
    ensures Increasing(TradingOnly(holidays, DaysFrom(start, end)))
    ensures forall x: u32 {:trigger x in TradingOnly(holidays, DaysFrom(start, end))} ::
      x in TradingOnly(holidays, DaysFrom(start, end)) <==> TradingDay(holidays, x) && start <= x <= end
  {
    hide Year, Month, Day, WeekDayOf, TomorrowOf, YesterdayOf, OrdinalOf, DaysInMonth, IsTradingDay;
    DaysFromIsTheRange(start, end);
    TradingOnlyKeepsOrder(holidays, DaysFrom(start, end));
  }

  method GenNatureDay(start: u32, end: u32) returns (dates: seq<u32>)
    requires ValidDate(start) && end < LAST_DATE
    ensures dates == DaysFrom(start, end)
  {
    hide Year, Month, Day, WeekDayOf, TomorrowOf, YesterdayOf, OrdinalOf, DaysInMonth, IsTradingDay;
    dates := [];
    var date: u32 := start;
    while date <= end
      invariant ValidDate(date)
      invariant DaysFrom(start, end) == dates + DaysFrom(date, end)
      decreases LAST_DATE - date
    {
      NothingBetweenNeighbours(date, date);
      dates := dates + [date];
      date := GetTomorrow(date);
    }
  }

  method GenTradingDay(holidays: set<u32>, start: u32, end: u32) returns (tradedays: seq<u32>)
    requires ValidDate(start) && end < LAST_DATE
    ensures tradedays == TradingOnly(holidays, DaysFrom(start, end))
  {
    hide Year, Month, Day, WeekDayOf, TomorrowOf, YesterdayOf, OrdinalOf, DaysInMonth, IsTradingDay;
    tradedays := [];
    var date: u32 := start;
    ghost var seen: seq<u32> := [];
    while date <= end
      invariant ValidDate(date)
      invariant DaysFrom(start, end) == seen + DaysFrom(date, end)
      invariant tradedays == TradingOnly(holidays, seen)
      decreases LAST_DATE - date
    {
      NothingBetweenNeighbours(date, date);
      TradingOnlySnoc(holidays, seen, date);
      CodedTestIsRight(holidays, date);
      if IsTradingDay(holidays, date) {
        tradedays := tradedays + [date];
      }
      seen := seen + [date];
      date := GetTomorrow(date);
    }
    assert DaysFrom(start, end) == seen;
  }
}
