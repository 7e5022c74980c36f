/**
 The search of `ad_to_bs`: walk the table month by month from the first BS
 year, subtracting month lengths from a day count until what remains fits in
 the current month. The result is the BS date whose day count is the input.
 */
module MonthSearch {
  import opened MachineInts
  import opened MonthTable
  import opened Elapsed

  datatype SearchError = Internal

  datatype SearchResult = Found(date: BsDate) | Failed(error: SearchError)

  /** `date` is the table date that day `n` of the count falls on. */
  predicate IsDateOfCount(t: Table, n: int, date: BsDate)
    requires t.Valid()
  {
    ValidBs(t, date) && AccumulatedDays(t, date) == n
  }

  /** Day counts the search can answer: from the first day of the table to its
      last. A larger count would run the search past the table and panic. */
  predicate InSearchRange(t: Table, n: int)
    requires t.Valid()
  {
    1 <= n <= TotalDays(t)
  }

  /** The search as a recursive definition, standing at `month` of `year` with
      `rem` days still to place. */
  function LocateFrom(t: Table, year: int, month: int, rem: int): (date: BsDate)
    requires t.Valid() && t.Covers(year) && IsMonth(month) && 1 <= rem
    requires PrefixDays(t, year, month) + rem <= TotalDays(t)
    ensures ValidBs(t, date)
    ensures AccumulatedDays(t, date) == PrefixDays(t, year, month) + rem
    decreases rem
  {
    var len := DaysInMonth(t, year, month);
    if rem <= len then BsDate(year, month, rem)
    else if month < MONTHS_PER_YEAR then
      LocateFrom(t, year, month + 1, rem - len)
    else
      YearEndsAtNextYear(t, year);
      if year + 1 == t.EndYear() then assert false; BsDate(year, month, rem)
      else LocateFrom(t, year + 1, 1, rem - len)
  }

  /** The BS date of day `n` of the count. */
  function Locate(t: Table, n: int): (date: BsDate)
    requires t.Valid() && InSearchRange(t, n)
    ensures IsDateOfCount(t, n, date)
  {
    if |t.words| == 0 then assert false; BsDate(t.yearZero, 1, n)
    else LocateFrom(t, t.yearZero, 1, n)
  }

  /** The loops of `ad_to_bs` (the formatting of the answer is `DateText`).
      `days` only loses a month's length when it is longer than that month, so
      it stays positive: the `while days > 0` test never fails, the loop ends
      only through the `return`, and the `Err` after it is unreachable. */
  method SearchMonth(t: Table, n: nat) returns (r: SearchResult)
    requires t.Valid() && InSearchRange(t, n)
    ensures r.Found?
    ensures IsDateOfCount(t, n, r.date)
  {
    var year := t.yearZero;
    var days: nat := n;
    while days > 0
      invariant t.Covers(year)
      invariant 1 <= days
      invariant DaysBefore(t, year) + days == n
      decreases t.EndYear() - year
    {
      var month, rest := ScanYear(t, year, days);
      if month != 0 {
        return Found(BsDate(year, month, rest));
      }
      days := rest;
      assert DaysBefore(t, year + 1) == DaysBefore(t, year) + YearLength(t, year);
      if year + 1 == t.EndYear() {
        assert false;
      }
      year := year + 1;
    }
    assert false;
    r := Failed(Internal);
  }

  /** The `for` loop of `ad_to_bs` over one year: the first month whose length
      is at least what remains of `days`, with the day inside it; or month 0
      and what remains after the whole year. */
  method ScanYear(t: Table, year: int, days: nat) returns (month: int, rest: nat)
    requires t.Valid() && t.Covers(year) && 1 <= days
    ensures month == 0 || IsMonth(month)
    ensures month != 0 ==> 1 <= rest <= DaysInMonth(t, year, month)
    ensures month != 0 ==> MonthsBefore(t, year, month) + rest == days
    ensures month == 0 ==> 1 <= rest && YearLength(t, year) + rest == days
  {
    rest := days;
    for i := 1 to MONTHS_PER_YEAR + 1
      invariant 1 <= rest
      invariant MonthsBefore(t, year, i) + rest == days
    {
      var daysInMonth := DaysInMonth(t, year, i);
      if rest <= daysInMonth {
        return i, rest;
      }
      rest := rest - daysInMonth;
    }
    month := 0;
  }

  /** Day `n` falls on exactly one table date. */
  lemma DateOfCountUnique(t: Table, n: int, a: BsDate, b: BsDate)
    requires t.Valid() && IsDateOfCount(t, n, a) && IsDateOfCount(t, n, b)
    ensures a == b
  {
    DayCountInjective(t, a, b);
  }

  /** Round trip from the date side: searching on the count `bs_to_ad`
      accumulates for a valid BS date gives back that date. */
  lemma LocateAccumulated(t: Table, date: BsDate)
    requires t.Valid() && ValidBs(t, date)
    ensures InSearchRange(t, AccumulatedDays(t, date))
    ensures Locate(t, AccumulatedDays(t, date)) == date
  {
    MonthEndWithinTable(t, date.year, date.month);
    var n := AccumulatedDays(t, date);
    DateOfCountUnique(t, n, Locate(t, n), date);
  }

  /** Round trip from the count side: accumulating the search's answer gives
      back the count. A named corollary of `Locate`'s postcondition. */
  lemma AccumulateLocated(t: Table, n: int)
    requires t.Valid() && InSearchRange(t, n)
    ensures AccumulatedDays(t, Locate(t, n)) == n
  {
  }

  /** The search runs the calendar forward one day at a time: the day after
      day `n` is the day after its date. */
  lemma LocateSuccessor(t: Table, n: int)
    requires t.Valid() && 1 <= n < TotalDays(t)
    ensures Locate(t, n + 1) == NextBsDay(t, Locate(t, n))
  {
    var date := Locate(t, n);
    NextDayAddsOne(t, date);
    DateOfCountUnique(t, n + 1, Locate(t, n + 1), NextBsDay(t, date));
  }

  /** The search never goes backwards: a larger count lands on a later date,
      and a later date always comes from a larger count. */
  lemma LocateOrdered(t: Table, n1: int, n2: int)
    requires t.Valid() && InSearchRange(t, n1) && InSearchRange(t, n2)
    ensures n1 < n2 <==> Before(Locate(t, n1), Locate(t, n2))
  {
    DayCountOrdered(t, Locate(t, n1), Locate(t, n2));
  }
}
