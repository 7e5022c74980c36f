/**
 The two conversions at the level of whole days. An AD date is a day number:
 day 0 is 1970-01-01 AD, so the UTC calendar date of a millisecond timestamp is
 its floor division by `MS_PER_DAY`, and an AD date enters `ad_to_bs` as the
 timestamp of its noon (UTC). The BS epoch `epoch` is the timestamp that
 `bs_to_ad` adds whole days to; it is a parameter because its value is not part
 of this model.
 */
module Converter {
  import opened MachineInts
  import opened MonthTable
  import opened Elapsed
  import opened MonthSearch
  import opened DateText

  /** 12:00:00 UTC, the time of day `parse_date_to_epoch` anchors an AD date at. */
  const NOON_MS: nat := 43_200_000

  datatype Conversion = Converted(text: string) | ConversionFailed(error: SearchError)

  /** `parse_date_to_epoch`: the timestamp of noon UTC on AD day `adDay`. */
  function NoonTimestamp(adDay: int): (ts: int)
    ensures AdDayOf(ts) == adDay
    ensures ts - MS_PER_DAY * adDay == NOON_MS
  {
    adDay * MS_PER_DAY + NOON_MS
  }

  /** The AD day (UTC calendar date) a timestamp falls on. */
  function AdDayOf(ts: int): (adDay: int)
    ensures MS_PER_DAY * adDay <= ts < MS_PER_DAY * (adDay + 1)
  {
    ts / MS_PER_DAY
  }

  /** `floor((ts - epoch) / MS_PER_DAY) as u32 + 1`, the 1-based number of the
      epoch day that holds `ts`. The cast saturates, so every instant before
      the epoch counts as day 1; `None` is the `u32` overflow of the `+ 1`. */
  function EpochDayCount(epoch: int, ts: int): (n: Option<nat>)
    ensures n.None? <==> (ts - epoch) / MS_PER_DAY >= U32_MAX
    ensures n.Some? ==> 1 <= n.value
    ensures ts < epoch ==> n == Some(1)
    ensures n.Some? && ts >= epoch ==>
              MS_PER_DAY * (n.value - 1) <= ts - epoch < MS_PER_DAY * n.value
  {
    CheckedAddU32(SaturatingU32((ts - epoch) / MS_PER_DAY), 1)
  }

  /** AD days whose BS date the table holds; for any other day `ad_to_bs`
      indexes past the table and panics. */
  predicate AdSupported(t: Table, epoch: int, adDay: int)
    requires t.Valid()
  {
    var n := EpochDayCount(epoch, NoonTimestamp(adDay));
    n.Some? && n.value <= TotalDays(t)
  }

  /** The BS date `ad_to_bs` finds for AD day `adDay`. */
  function AdToBsDate(t: Table, epoch: int, adDay: int): (date: BsDate)
    requires t.Valid() && AdSupported(t, epoch, adDay)
    ensures ValidBs(t, date)
    ensures AccumulatedDays(t, date) == EpochDayCount(epoch, NoonTimestamp(adDay)).value
  {
    Locate(t, EpochDayCount(epoch, NoonTimestamp(adDay)).value)
  }

  /** `ad_to_bs`: count the epoch day of the AD date's noon, search the table,
      format the answer. */
  method AdToBs(t: Table, epoch: int, adDay: int) returns (r: Conversion)
    requires t.Valid() && AdSupported(t, epoch, adDay)
    ensures r.Converted?
    ensures r.text == FormatBs(AdToBsDate(t, epoch, adDay))
    ensures ParseBs(r.text) == Some(AdToBsDate(t, epoch, adDay))
  {
    var ts := NoonTimestamp(adDay);
    var days := EpochDayCount(epoch, ts).value;
    var found := SearchMonth(t, days);
    DateOfCountUnique(t, days, found.date, AdToBsDate(t, epoch, adDay));
    r := Converted(FormatBs(found.date));
    FormatRoundTrip(found.date);
  }

  /** The AD day `bs_to_ad` prints for a BS date: the UTC date of the
      accumulated timestamp. */
  function BsToAdDay(t: Table, epoch: int, date: BsDate): int
    requires t.Valid() && Accumulable(t, date)
  {
    AdDayOf(epoch + MS_PER_DAY * AccumulatedDays(t, date))
  }

  // Gregorian validity, which `chrono` checks when it parses the date that
  // `bs_to_ad` receives.

  predicate IsGregorianLeapYear(year: int) {
    (year % 4 == 0 && year % 100 != 0) || year % 400 == 0
  }

  function GregorianMonthLength(year: int, month: int): (len: nat)
    requires IsMonth(month)
    ensures 28 <= len <= 31
  {
    if month == 2 then (if IsGregorianLeapYear(year) then 29 else 28)
    else if month == 4 || month == 6 || month == 9 || month == 11 then 30
    else 31
  }

  /** What `NaiveDate::parse_from_str` accepts: a month 1..12 and a day that
      exists in that Gregorian month. */
  function IsGregorianDate(date: BsDate): (ok: bool)
    ensures ok ==> IsMonth(date.month) && 1 <= date.day <= 31
    ensures IsMonth(date.month) && 1 <= date.day <= 28 ==> ok
    ensures date.month == 2 && date.day == 29 ==> (ok <==> IsGregorianLeapYear(date.year))
  {
    IsMonth(date.month) && 1 <= date.day <= GregorianMonthLength(date.year, date.month)
  }

  /** `bs_to_ad` as written: its input is a `NaiveDate`, so the BS date must
      also be a valid Gregorian date; its day is never checked against the BS
      month. */
  method BsToAd(t: Table, epoch: int, date: BsDate) returns (adDay: int)
    requires t.Valid() && Accumulable(t, date) && IsGregorianDate(date)
    ensures MS_PER_DAY * adDay <= epoch + MS_PER_DAY * AccumulatedDays(t, date)
    ensures epoch + MS_PER_DAY * AccumulatedDays(t, date) < MS_PER_DAY * (adDay + 1)
    ensures adDay == BsToAdDay(t, epoch, date)
  {
    var ts := AccumulateMillis(t, epoch, date);
    adDay := AdDayOf(ts);
  }

  /** `bs_to_ad` on BS dates checked against the table instead of the
      Gregorian calendar: every date of the table converts, and nothing else. */
  function BsToAdChecked(t: Table, epoch: int, date: BsDate): (r: Option<int>)
    requires t.Valid()
    ensures r.Some? <==> ValidBs(t, date)
    ensures r.Some? ==> MS_PER_DAY * r.value <= epoch + MS_PER_DAY * AccumulatedDays(t, date)
    ensures r.Some? ==> epoch + MS_PER_DAY * AccumulatedDays(t, date) < MS_PER_DAY * (r.value + 1)
  {
    if ValidBs(t, date) then Some(BsToAdDay(t, epoch, date)) else None
  }

  /** Accepting only Gregorian dates turns away valid BS dates: the 29th day of
      BS month 2 exists in every BS year (no month is shorter than 29 days), but
      February 29 does not exist in a Gregorian common year such as 2079. */
  lemma GregorianParseRejectsBsDate(t: Table, year: int)
    requires t.Valid() && t.Covers(year) && !IsGregorianLeapYear(year)
    ensures ValidBs(t, BsDate(year, 2, 29))
    ensures !IsGregorianDate(BsDate(year, 2, 29))
    ensures BsToAdChecked(t, 0, BsDate(year, 2, 29)).Some?
  {
  }

  // Arithmetic of the noon anchor.

  lemma FloorDivBracket(x: int, q: int)
    requires MS_PER_DAY * q <= x < MS_PER_DAY * (q + 1)
    ensures x / MS_PER_DAY == q
  {
  }

  /** Where the epoch day count of an AD day's noon lands, for the AD day that
      holds `epoch + MS_PER_DAY * n`: back on `n` exactly when the epoch lies
      after noon in its UTC day, one day later otherwise. */
  lemma NoonCountOfAccumulated(epoch: int, n: int)
    requires 1 <= n < U32_MAX
    ensures EpochDayCount(epoch, NoonTimestamp(AdDayOf(epoch + MS_PER_DAY * n)))
            == Some(if epoch % MS_PER_DAY > NOON_MS then n else n + 1)
  {
    var q := epoch / MS_PER_DAY;
    var rest := epoch % MS_PER_DAY;
    assert epoch == MS_PER_DAY * q + rest;
    var g := AdDayOf(epoch + MS_PER_DAY * n);
    FloorDivBracket(epoch + MS_PER_DAY * n, q + n);
    var diff := NoonTimestamp(g) - epoch;
    assert diff == MS_PER_DAY * n + NOON_MS - rest;
    if rest > NOON_MS {
      FloorDivBracket(diff, n - 1);
    } else {
      FloorDivBracket(diff, n);
    }
  }

  /** Where `bs_to_ad` lands for the BS date of day `n` of the count, when that
      day is the epoch day of an AD day's noon. */
  lemma AccumulatedOfNoonCount(epoch: int, adDay: int, n: int)
    requires NoonTimestamp(adDay) >= epoch
    requires EpochDayCount(epoch, NoonTimestamp(adDay)) == Some(n)
    ensures AdDayOf(epoch + MS_PER_DAY * n)
            == (if epoch % MS_PER_DAY > NOON_MS then adDay else adDay + 1)
  {
    var rest := epoch % MS_PER_DAY;
    var q := epoch / MS_PER_DAY;
    assert epoch == MS_PER_DAY * q + rest;
    assert MS_PER_DAY * (n - 1) <= NoonTimestamp(adDay) - epoch < MS_PER_DAY * n;
    var ts := epoch + MS_PER_DAY * n;
    if rest > NOON_MS {
      assert NoonTimestamp(adDay) - epoch == MS_PER_DAY * (adDay - q) + NOON_MS - rest;
      assert n == adDay - q;
      FloorDivBracket(ts, adDay);
    } else {
      assert NoonTimestamp(adDay) - epoch == MS_PER_DAY * (adDay - q) + NOON_MS - rest;
      assert n == adDay - q + 1;
      FloorDivBracket(ts, adDay + 1);
    }
  }

  /** Round trip from the BS side: a valid BS date converted to AD and back is
      the same date exactly when the epoch lies after noon (UTC) in its day;
      otherwise the noon anchor lands one BS day later. */
  lemma BsRoundTrip(t: Table, epoch: int, date: BsDate)
    requires t.Valid() && ValidBs(t, date)
    ensures (AdSupported(t, epoch, BsToAdDay(t, epoch, date)) &&
             AdToBsDate(t, epoch, BsToAdDay(t, epoch, date)) == date)
            <==> epoch % MS_PER_DAY > NOON_MS
  {
    var n := AccumulatedDays(t, date);
    LocateAccumulated(t, date);
    var g := BsToAdDay(t, epoch, date);
    assert g == AdDayOf(epoch + MS_PER_DAY * n);
    NoonCountOfAccumulated(epoch, n);
    var count := EpochDayCount(epoch, NoonTimestamp(g));
    if epoch % MS_PER_DAY > NOON_MS {
      assert count == Some(n);
      assert AdToBsDate(t, epoch, g) == Locate(t, n);
    } else if AdSupported(t, epoch, g) {
      assert count == Some(n + 1);
      assert AccumulatedDays(t, AdToBsDate(t, epoch, g)) == n + 1;
    }
  }

  /** Round trip from the AD side: an AD day from the epoch on, converted to
      BS and back, is the same day exactly when the epoch lies after noon (UTC)
      in its day. */
  lemma AdRoundTrip(t: Table, epoch: int, adDay: int)
    requires t.Valid() && AdSupported(t, epoch, adDay)
    requires NoonTimestamp(adDay) >= epoch
    ensures BsToAdDay(t, epoch, AdToBsDate(t, epoch, adDay)) == adDay
            <==> epoch % MS_PER_DAY > NOON_MS
  {
    var n := EpochDayCount(epoch, NoonTimestamp(adDay)).value;
    AccumulatedOfNoonCount(epoch, adDay, n);
  }

  /** An AD day before the epoch clamps to day 1 of the count, the first day
      of the table. */
  lemma PreEpochClampsToFirstDay(t: Table, epoch: int, adDay: int)
    requires t.Valid() && 1 <= |t.words|
    requires NoonTimestamp(adDay) < epoch
    ensures AdSupported(t, epoch, adDay)
    ensures AdToBsDate(t, epoch, adDay) == BsDate(t.yearZero, 1, 1)
  {
    DaysBeforeMonotone(t, t.yearZero + 1, t.EndYear());
    DateOfCountUnique(t, 1, AdToBsDate(t, epoch, adDay), BsDate(t.yearZero, 1, 1));
  }

  /** Consecutive AD days from the epoch on go to consecutive BS days. */
  lemma AdSuccessor(t: Table, epoch: int, adDay: int)
    requires t.Valid() && AdSupported(t, epoch, adDay) && AdSupported(t, epoch, adDay + 1)
    requires NoonTimestamp(adDay) >= epoch
    ensures AdToBsDate(t, epoch, adDay + 1) == NextBsDay(t, AdToBsDate(t, epoch, adDay))
  {
    var n := EpochDayCount(epoch, NoonTimestamp(adDay)).value;
    assert NoonTimestamp(adDay + 1) == NoonTimestamp(adDay) + MS_PER_DAY;
    FloorDivBracket(NoonTimestamp(adDay + 1) - epoch, n);
    LocateSuccessor(t, n);
  }

  /** The day after a BS date converts to the AD day after. This holds for the
      last day of a month and for the table's last day too, whose successor is
      month 1 of the year after the table. */
  lemma BsNextDayIsNextAdDay(t: Table, epoch: int, date: BsDate)
    requires t.Valid() && ValidBs(t, date)
    ensures BsToAdDay(t, epoch, NextBsDay(t, date)) == BsToAdDay(t, epoch, date) + 1
  {
    NextDayAddsOne(t, date);
    var ts := epoch + MS_PER_DAY * AccumulatedDays(t, date);
    var g := AdDayOf(ts);
    FloorDivBracket(ts + MS_PER_DAY, g + 1);
  }
}
