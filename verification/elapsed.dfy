/**
 BS dates as counts of elapsed days since the BS epoch, and the nested loops of
 `bs_to_ad` that accumulate such a count as a millisecond timestamp. Day `n`
 of the count (`n >= 1`) is BS year `yearZero`, month 1, day `n` when `n` is at
 most that month's length, and so on through the table.
 */
module Elapsed {
  import opened MachineInts
  import opened MonthTable

  const MS_PER_DAY: nat := 86_400_000

  /** A calendar date read as a BS date. */
  datatype BsDate = BsDate(year: int, month: int, day: int)

  /** A BS date that exists in the table's calendar. */
  predicate ValidBs(t: Table, date: BsDate)
    requires t.Valid()
  {
    t.Covers(date.year) && IsMonth(date.month) &&
    1 <= date.day <= DaysInMonth(t, date.year, date.month)
  }

  /** Strict chronological order of BS dates: by year, then month, then day. */
  predicate Before(a: BsDate, b: BsDate) {
    a.year < b.year ||
    (a.year == b.year && a.month < b.month) ||
    (a.year == b.year && a.month == b.month && a.day < b.day)
  }

  /** Days in months `1 .. month - 1` of `year`; `month == 13` gives the whole year. */
  function MonthsBefore(t: Table, year: int, month: int): (days: nat)
    requires t.Valid() && t.Covers(year) && 1 <= month <= MONTHS_PER_YEAR + 1
    ensures 29 * (month - 1) <= days <= 32 * (month - 1)
    decreases month
  {
    if month == 1 then 0
    else MonthsBefore(t, year, month - 1) + DaysInMonth(t, year, month - 1)
  }

  /** Days in one BS year of the table. */
  function YearLength(t: Table, year: int): (days: nat)
    requires t.Valid() && t.Covers(year)
    ensures 348 <= days <= 384
  {
    MonthsBefore(t, year, MONTHS_PER_YEAR + 1)
  }

  /** Days in the full years `yearZero .. year - 1`; nothing for years before the table. */
  function DaysBefore(t: Table, year: int): (days: nat)
    requires t.Valid() && year <= t.EndYear()
    ensures year <= t.yearZero ==> days == 0
    ensures year > t.yearZero ==> 348 * (year - t.yearZero) <= days <= 384 * (year - t.yearZero)
    decreases year - t.yearZero
  {
    if year <= t.yearZero then 0
    else DaysBefore(t, year - 1) + YearLength(t, year - 1)
  }

  /** Days from the epoch to the end of the last table year. */
  function TotalDays(t: Table): (days: nat)
    requires t.Valid()
    ensures days <= 384 * |t.words|
    ensures days < U32_MAX
  {
    DaysBefore(t, t.EndYear())
  }

  /** Days from the epoch to the day before day 1 of `month` of `year`. */
  function PrefixDays(t: Table, year: int, month: int): (days: nat)
    requires t.Valid() && t.Covers(year) && IsMonth(month)
  {
    DaysBefore(t, year) + MonthsBefore(t, year, month)
  }

  /** Dates `bs_to_ad` converts without indexing past the table: any month of
      a year before the table's end, and month 1 of the year just after it,
      whose month loop is empty so that only earlier table years are read. */
  predicate Accumulable(t: Table, date: BsDate) {
    IsMonth(date.month) &&
    (date.year < t.EndYear() || (date.year == t.EndYear() && date.month == 1))
  }

  /** The day count `bs_to_ad` builds for a date whose day field is `day`:
      the day itself plus every earlier month of the year and every earlier
      table year. */
  function AccumulatedDays(t: Table, date: BsDate): (days: int)
    requires t.Valid() && Accumulable(t, date)
    ensures date.year < t.yearZero ==> days == date.day
    ensures t.yearZero <= date.year == t.EndYear() ==> days == TotalDays(t) + date.day
    ensures ValidBs(t, date) ==> 1 <= days <= TotalDays(t)
  {
    if date.year < t.yearZero then date.day
    else if date.year == t.EndYear() then date.day + DaysBefore(t, date.year)
    else
      MonthEndWithinTable(t, date.year, date.month);
      date.day + PrefixDays(t, date.year, date.month)
  }

  /** The day after `date`, rolling over to the next month and year. */
  function NextBsDay(t: Table, date: BsDate): (next: BsDate)
    requires t.Valid() && ValidBs(t, date)
    ensures Before(date, next)
    ensures Accumulable(t, next)
  {
    if date.day < DaysInMonth(t, date.year, date.month) then
      BsDate(date.year, date.month, date.day + 1)
    else if date.month < MONTHS_PER_YEAR then
      BsDate(date.year, date.month + 1, 1)
    else
      BsDate(date.year + 1, 1, 1)
  }

  /** Days the nested loops of `bs_to_ad` have still to add when they stand at
      `year` with `month` months of it left. */
  function Pending(t: Table, year: int, month: int): nat
    requires t.Valid() && 0 <= month <= MONTHS_PER_YEAR
    requires year < t.EndYear() || (year == t.EndYear() && month == 0)
  {
    if year < t.yearZero then 0
    else if year == t.EndYear() then DaysBefore(t, year)
    else DaysBefore(t, year) + MonthsBefore(t, year, month + 1)
  }

  /** The accumulation loops of `bs_to_ad`: start from `epoch + MS_PER_DAY * day`,
      add the months `month - 1 .. 1` of the date's year, then all twelve months
      of each earlier year down to `yearZero`. `day` is at most 31 because the
      input is a Gregorian `NaiveDate`; it is not checked against the BS month.
      Month 1 of the year after the table reads no word of that year, so it
      converts like the day after the table's last month. */
  method AccumulateMillis(t: Table, epoch: int, date: BsDate) returns (ts: int)
    requires t.Valid() && Accumulable(t, date)
    requires 1 <= date.day <= 31
    ensures ts == epoch + MS_PER_DAY * AccumulatedDays(t, date)
  {
    ghost var target := epoch + MS_PER_DAY * AccumulatedDays(t, date);
    var year := date.year;
    var month := date.month;
    ts := epoch + CheckedMulU32(MS_PER_DAY, date.day).value;
    month := month - 1;
    assert ts + MS_PER_DAY * Pending(t, year, month) == target;
    while year >= t.yearZero
      invariant 0 <= month <= MONTHS_PER_YEAR
      invariant year < t.EndYear() || (year == t.EndYear() && month == 0)
      invariant ts + MS_PER_DAY * Pending(t, year, month) == target
      decreases year - t.yearZero + 1
    {
      ts := AddMonths(t, year, month, ts);
      PendingYearStep(t, year);
      month := MONTHS_PER_YEAR;
      year := year - 1;
    }
  }

  /** The inner loop of `bs_to_ad`: add months `month .. 1` of `year` to
      `start`, one checked `u32` product per month. */
  method AddMonths(t: Table, year: int, month: int, start: int) returns (ts: int)
    requires t.Valid() && 0 <= month <= MONTHS_PER_YEAR && t.yearZero <= year
    requires year < t.EndYear() || (year == t.EndYear() && month == 0)
    ensures ts + MS_PER_DAY * Pending(t, year, 0) == start + MS_PER_DAY * Pending(t, year, month)
  {
    ts := start;
    var m := month;
    while m > 0
      invariant 0 <= m <= month
      invariant ts + MS_PER_DAY * Pending(t, year, m) == start + MS_PER_DAY * Pending(t, year, month)
    {
      var monthMillis := CheckedMulU32(DaysInMonth(t, year, m), MS_PER_DAY).value;
      PendingMonthStep(t, year, m);
      ts := ts + monthMillis;
      m := m - 1;
    }
  }

  lemma PendingMonthStep(t: Table, year: int, month: int)
    requires t.Valid() && t.Covers(year) && IsMonth(month)
    ensures Pending(t, year, month) == Pending(t, year, month - 1) + DaysInMonth(t, year, month)
  {
  }

  lemma PendingYearStep(t: Table, year: int)
    requires t.Valid() && t.yearZero <= year <= t.EndYear()
    ensures Pending(t, year, 0) == Pending(t, year - 1, MONTHS_PER_YEAR)
  {
  }

  /** `MS_PER_DAY * k` fits a `u32` exactly for `k <= 49`; every day and month
      length (at most 32) is well inside. */
  lemma DayMillisFitsU32(k: nat)
    requires IsU32(k)
    ensures CheckedMulU32(MS_PER_DAY, k).Some? <==> k <= 49
  {
  }

  // Facts about the prefix sums.

  lemma {:induction false} MonthsBeforeMonotone(t: Table, year: int, m1: int, m2: int)
    requires t.Valid() && t.Covers(year) && 1 <= m1 <= m2 <= MONTHS_PER_YEAR + 1
    ensures MonthsBefore(t, year, m1) <= MonthsBefore(t, year, m2)
    decreases m2
  {
    if m1 < m2 {
      MonthsBeforeMonotone(t, year, m1, m2 - 1);
    }
  }

  lemma {:induction false} DaysBeforeMonotone(t: Table, y1: int, y2: int)
    requires t.Valid() && y1 <= y2 <= t.EndYear()
    ensures DaysBefore(t, y1) <= DaysBefore(t, y2)
    decreases y2 - y1
  {
    if y1 < y2 {
      DaysBeforeMonotone(t, y1, y2 - 1);
    }
  }

  /** The last month of a year ends where the next year begins. */
  lemma YearEndsAtNextYear(t: Table, year: int)
    requires t.Valid() && t.Covers(year)
    ensures PrefixDays(t, year, MONTHS_PER_YEAR) + DaysInMonth(t, year, MONTHS_PER_YEAR)
            == DaysBefore(t, year + 1)
  {
  }

  /** Every table month ends no later than the end of the table. */
  lemma MonthEndWithinTable(t: Table, year: int, month: int)
    requires t.Valid() && t.Covers(year) && IsMonth(month)
    ensures PrefixDays(t, year, month) + DaysInMonth(t, year, month) <= TotalDays(t)
  {
    assert MonthsBefore(t, year, month + 1) == MonthsBefore(t, year, month) + DaysInMonth(t, year, month);
    MonthsBeforeMonotone(t, year, month + 1, MONTHS_PER_YEAR + 1);
    assert DaysBefore(t, year + 1) == DaysBefore(t, year) + YearLength(t, year);
    DaysBeforeMonotone(t, year + 1, t.EndYear());
  }

  /** A month that starts before another ends no later than the other begins. */
  lemma MonthEndsBeforeLaterMonth(t: Table, y1: int, m1: int, y2: int, m2: int)
    requires t.Valid() && t.Covers(y1) && t.Covers(y2) && IsMonth(m1) && IsMonth(m2)
    requires y1 < y2 || (y1 == y2 && m1 < m2)
    ensures PrefixDays(t, y1, m1) + DaysInMonth(t, y1, m1) <= PrefixDays(t, y2, m2)
  {
    var end1 := DaysBefore(t, y1) + MonthsBefore(t, y1, m1 + 1);
    assert PrefixDays(t, y1, m1) + DaysInMonth(t, y1, m1) == end1;
    if y1 == y2 {
      MonthsBeforeMonotone(t, y1, m1 + 1, m2);
    } else {
      MonthEndWithinYear(t, y1, m1);
      DaysBeforeMonotone(t, y1 + 1, y2);
      assert DaysBefore(t, y2) <= PrefixDays(t, y2, m2);
    }
  }

  /** A month ends no later than its year. */
  lemma MonthEndWithinYear(t: Table, year: int, month: int)
    requires t.Valid() && t.Covers(year) && IsMonth(month)
    ensures DaysBefore(t, year) + MonthsBefore(t, year, month + 1) <= DaysBefore(t, year + 1)
  {
    MonthsBeforeMonotone(t, year, month + 1, MONTHS_PER_YEAR + 1);
    assert DaysBefore(t, year + 1) == DaysBefore(t, year) + YearLength(t, year);
  }

  /** The day count of a table date identifies the date: two valid BS dates
      with the same count are the same date. */
  lemma DayCountInjective(t: Table, a: BsDate, b: BsDate)
    requires t.Valid() && ValidBs(t, a) && ValidBs(t, b)
    requires AccumulatedDays(t, a) == AccumulatedDays(t, b)
    ensures a == b
  {
    if a.year < b.year || (a.year == b.year && a.month < b.month) {
      MonthEndsBeforeLaterMonth(t, a.year, a.month, b.year, b.month);
    } else if b.year < a.year || (a.year == b.year && b.month < a.month) {
      MonthEndsBeforeLaterMonth(t, b.year, b.month, a.year, a.month);
    }
  }

  /** Within the table the day count is strictly increasing in date order. */
  lemma DayCountOrdered(t: Table, a: BsDate, b: BsDate)
    requires t.Valid() && ValidBs(t, a) && ValidBs(t, b)
    ensures Before(a, b) <==> AccumulatedDays(t, a) < AccumulatedDays(t, b)
  {
    if a.year < b.year || (a.year == b.year && a.month < b.month) {
      MonthEndsBeforeLaterMonth(t, a.year, a.month, b.year, b.month);
    } else if b.year < a.year || (a.year == b.year && b.month < a.month) {
      MonthEndsBeforeLaterMonth(t, b.year, b.month, a.year, a.month);
    }
  }

  /** The next BS day has the next day count. It is a table date unless
      `date` is the table's very last day, whose successor is month 1 of the
      year after the table. */
  lemma NextDayAddsOne(t: Table, date: BsDate)
    requires t.Valid() && ValidBs(t, date)
    ensures AccumulatedDays(t, NextBsDay(t, date)) == AccumulatedDays(t, date) + 1
    ensures ValidBs(t, NextBsDay(t, date)) <==> AccumulatedDays(t, date) < TotalDays(t)
  {
    var len := DaysInMonth(t, date.year, date.month);
    if date.day < len {
      assert NextBsDay(t, date) == BsDate(date.year, date.month, date.day + 1);
      MonthEndWithinTable(t, date.year, date.month);
    } else if date.month < MONTHS_PER_YEAR {
      assert NextBsDay(t, date) == BsDate(date.year, date.month + 1, 1);
      NextDayInNextMonth(t, date);
    } else {
      assert NextBsDay(t, date) == BsDate(date.year + 1, 1, 1);
      NextDayInNextYear(t, date);
    }
  }

  /** The last day of a month other than the last is followed by day 1 of the
      next month, one count later. */
  lemma NextDayInNextMonth(t: Table, date: BsDate)
    requires t.Valid() && ValidBs(t, date) && date.month < MONTHS_PER_YEAR
    requires date.day == DaysInMonth(t, date.year, date.month)
    ensures ValidBs(t, BsDate(date.year, date.month + 1, 1))
    ensures AccumulatedDays(t, BsDate(date.year, date.month + 1, 1)) == AccumulatedDays(t, date) + 1
    ensures AccumulatedDays(t, date) < TotalDays(t)
  {
    NextMonthStart(t, date.year, date.month);
    MonthEndWithinTable(t, date.year, date.month + 1);
  }

  /** The last day of a year is followed by day 1 of the next year, one count
      later; that day is in the table unless the year is the table's last. */
  lemma NextDayInNextYear(t: Table, date: BsDate)
    requires t.Valid() && ValidBs(t, date) && date.month == MONTHS_PER_YEAR
    requires date.day == DaysInMonth(t, date.year, date.month)
    ensures Accumulable(t, BsDate(date.year + 1, 1, 1))
    ensures AccumulatedDays(t, BsDate(date.year + 1, 1, 1)) == AccumulatedDays(t, date) + 1
    ensures ValidBs(t, BsDate(date.year + 1, 1, 1)) <==> AccumulatedDays(t, date) < TotalDays(t)
  {
    YearEndsAtNextYear(t, date.year);
    if date.year + 1 < t.EndYear() {
      MonthEndWithinTable(t, date.year + 1, 1);
    }
  }

  lemma NextMonthStart(t: Table, year: int, month: int)
    requires t.Valid() && t.Covers(year) && 1 <= month < MONTHS_PER_YEAR
    ensures PrefixDays(t, year, month + 1) == PrefixDays(t, year, month) + DaysInMonth(t, year, month)
  {
  }
}
