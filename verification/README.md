# ndate day-count core in Dafny

A model of the Bikram Sambat (BS) ⇄ Gregorian (AD) converter of `ndate`. The
converter works in three layers, and the model follows them:

- **The packed month-length table** (`month_table.dfy`, module `MonthTable`).
  Each BS year is one word. Month `m` is the 2-bit field at bit offset
  `2(m-1)`, and the month has `29 + field` days. `calculate_days_in_month`
  decodes it. The table and its first year, `BS_YEAR_ZERO`, are defined in a
  file that is not part of this model. So they become a `Table` parameter:
  a first year plus a sequence of words, each below 2^24. `Pack` is an
  independent reference encoder that the decoder is checked against.
  `Unpack` is the decoder's own twelve-month view of a word.
- **Elapsed days** (`elapsed.dfy`, module `Elapsed`). A BS date is counted
  as elapsed days since the BS epoch: day `n >= 1` of the count. The module
  defines the prefix sums `MonthsBefore`, `DaysBefore` and `PrefixDays`.
  `AccumulateMillis` mirrors the nested `while` loops of `bs_to_ad` that
  build the timestamp `epoch + MS_PER_DAY * count`; its inner loop is the
  method `AddMonths`. Its `u32` products are
  checked explicitly (`MachineInts`).
- **The month search** (`month_search.dfy`, module `MonthSearch`).
  `SearchMonth` mirrors the `while`/`for` loops of `ad_to_bs`; its `for`
  loop over one year is the method `ScanYear`. `Locate` is
  the same search as a recursive definition. Both return the unique table
  date of a count.
- **Text and conversion** (`date_text.dfy`, module `DateText`;
  `converter.dfy`, module `Converter`). `FormatBs` produces the `YYYY-MM-DD`
  answer, and `ParseBs` is its inverse. `Converter` connects everything to
  AD days. An AD date is a day number, where day 0 is 1970-01-01. It enters
  `ad_to_bs` as the timestamp of its noon (UTC). The AD date printed by
  `bs_to_ad` is the UTC date of a timestamp, i.e. floor division by
  `MS_PER_DAY`. The BS epoch timestamp is a parameter, `epoch`.

`MS_PER_DAY` is 86 400 000 and the noon anchor is 43 200 000 ms.

The conversions only invert each other for some epochs. A valid BS date
converted to AD and back is the same date if and only if the epoch falls
after noon (UTC) within its own UTC day. The same condition governs an AD
day converted to BS and back. For any other epoch the noon anchor lands one
day late in both directions. This is `Converter.BsRoundTrip` and
`Converter.AdRoundTrip`. The property depends on the epoch constant, which
is not part of this model.

## Model

| member | source | states |
|---|---|---|
| `MachineInts.CheckedMulU32` | src/lib.rs:44-49 | A `u32` product (`MS_PER_DAY * day`, `days_in_month * MS_PER_DAY`) yields a value exactly when it fits in 32 bits, and then the true product; otherwise it panics. |
| `MachineInts.CheckedAddU32` | src/lib.rs:72 | The `u32` `+ 1` yields a value exactly when the sum is at most `u32::MAX`, and then the true sum; otherwise it panics. |
| `MachineInts.SaturatingU32` | src/lib.rs:72 | The `as u32` cast keeps values in `0..u32::MAX`, sends every negative value to 0 and every larger value to `u32::MAX`. |
| `MonthTable.Field` | src/lib.rs:93-95 | `(w >> 2k) & 3` is a value in 0..3, so every decoded month has 29..32 days. |
| `MonthTable.FieldBeyondWord` | src/lib.rs:93-95 | `(w >> 2k) & 3` is 0 for every field above the word's highest bits (`w < 4^k`). |
| `MonthTable.DaysInMonth` | src/lib.rs:92-98 | For a year inside the table and a month in 1..12, the decoded month length lies in 29..32. |
| `MonthTable.DaysInMonthOfPacked` | src/lib.rs:93-95 | If a year's word is the packing of twelve explicit month lengths (2 bits per month, first month lowest), decoding month `m` returns the `m`-th length. |
| `MonthTable.UnpackPack` | src/lib.rs:95 | Unpacking a packed year gives back its twelve month lengths. |
| `MonthTable.PackUnpack` | src/lib.rs:95 | Every word below 2^24 is the packing of exactly the twelve lengths it unpacks to, so the encoding loses nothing. |
| `Elapsed.MonthsBefore` | src/lib.rs:48-52 | The days in the first `m-1` months of a table year lie between 29(m-1) and 32(m-1). |
| `Elapsed.YearLength` | src/lib.rs:47-55 | A table year has between 348 and 384 days. |
| `Elapsed.DaysBefore` | src/lib.rs:47-55 | The full years from the first table year up to `year` hold between 348 and 384 days each; a year at or before the first table year contributes nothing. |
| `Elapsed.TotalDays` | src/lib.rs:72 | Every day count of the table stays below `u32::MAX`, so the `u32` counter of `ad_to_bs` can hold it. |
| `Elapsed.AccumulatedDays` | src/lib.rs:39-55 | The count `bs_to_ad` builds: a year before the table contributes only `day`; month 1 of the year after the table continues after the table's last day (`TotalDays + day`); a valid table date gets a count in `1..TotalDays`. |
| `Elapsed.AccumulateMillis` | src/lib.rs:40-55 | The nested loops end with timestamp `epoch + MS_PER_DAY * (day + days of months 1..m-1 of the year + days of every full year from the first table year)`. A year before the table adds only `day`. Month 1 of the year after the table reads no word of that year and is accepted too. No `u32` product overflows on the way. |
| `Elapsed.AddMonths` | src/lib.rs:48-52 | The inner loop adds exactly the days of months `month .. 1` of the year (in milliseconds) to the timestamp, each as a checked `u32` product that never overflows. For month 0 it adds nothing. |
| `Elapsed.DayMillisFitsU32` | src/lib.rs:44-49 | `MS_PER_DAY * k` fits a `u32` exactly when `k <= 49`, which covers every day number and month length (at most 32). |
| `Elapsed.DayCountInjective` | src/lib.rs:44-55 | Two valid table dates with the same accumulated day count are the same date. |
| `Elapsed.DayCountOrdered` | src/lib.rs:44-55 | For valid table dates, one date is earlier than another if and only if its accumulated day count is smaller. |
| `Elapsed.MonthEndWithinTable` | src/lib.rs:44-55 | The last day of every table month has a count no larger than the table's total. |
| `Elapsed.NextDayAddsOne` | src/lib.rs:44-55 | The day after a valid date (same month, next month, or 1 Baisakh of the next year) has a count one larger. It is a valid table date if and only if the date is not the table's last day. |
| `Elapsed.NextDayInNextMonth` | src/lib.rs:48-52 | After the last day of months 1..11 comes day 1 of the next month, which is valid and counted one later; such a day is never the table's last. |
| `Elapsed.NextDayInNextYear` | src/lib.rs:47-55 | After the last day of month 12 comes 1/1 of the next year, counted one later and accepted by `bs_to_ad`. It is a table date if and only if the year is not the table's last. |
| `MonthSearch.LocateFrom` | src/lib.rs:74-86 | The month-by-month walk, started at any month with `rem >= 1` days left inside the table, stops on a valid date whose count equals the start month's prefix plus `rem`. |
| `MonthSearch.Locate` | src/lib.rs:66-86 | For `1 <= n <= total days`, the search from the first table year returns a valid date whose accumulated count is `n`. |
| `MonthSearch.SearchMonth` | src/lib.rs:66-89 | The loops always return a result; the `Err` after them is unreachable. The date returned is valid (`1 <= d <= len(y, m)`) and its count is `n`. A remainder equal to the month length stays in that month. |
| `MonthSearch.ScanYear` | src/lib.rs:74-84 | Over one year the `for` loop either stops at a month with `1 <= rest <= len(month)` and `days = days of earlier months + rest`, or runs through all twelve months and leaves `days - YearLength >= 1`. |
| `MonthSearch.DateOfCountUnique` | src/lib.rs:73-86 | At most one table date has a given count, so the search's answer is determined by `n`. |
| `MonthSearch.LocateAccumulated` | src/lib.rs:39-86 | Round trip from the date side: for a valid BS date, the count `bs_to_ad` accumulates is in the search's range, and searching on it gives back the date. |
| `MonthSearch.AccumulateLocated` | src/lib.rs:39-86 | Round trip from the count side: accumulating the search's answer for `n` gives `n`. |
| `MonthSearch.LocateSuccessor` | src/lib.rs:74-87 | Counts `n` and `n+1` land on consecutive BS days: day `d+1` of the same month, or day 1 of the next month, or 1/1 of the next year after month 12. |
| `MonthSearch.LocateOrdered` | src/lib.rs:73-88 | The search never goes backwards: `n1 < n2` if and only if the date of `n1` is earlier than the date of `n2`. |
| `DateText.NatToDecimal` | src/lib.rs:77-82 | The decimal text of a number is a non-empty string of digits without leading zeros (it starts with '0' only for 0), one digit long exactly below 10 and at most two below 100. |
| `DateText.IntToDecimal` | src/lib.rs:79 | The year text starts with '-' exactly for negative years and is followed by digits without a leading zero. A non-negative year is all digits and starts with '0' only for year 0. |
| `DateText.MonthDaySuffix` | src/lib.rs:77-82 | The "-MM-DD" part is six characters: '-', the two-digit month, '-', the two-digit day. |
| `DateText.PadTwo` | src/lib.rs:80-81 | `{:0>2}` leaves text of width 2 or more unchanged, and otherwise left-pads it with '0' to width 2. |
| `DateText.FormatBs` | src/lib.rs:77-82 | The answer is the year text followed by the six characters of `MonthDaySuffix`: '-' six and three characters from the end, and two digits each for month and day. |
| `DateText.FormatRoundTrip` | src/lib.rs:77-82 | Reading the `YEAR-MM-DD` text back gives the date it was made from (any year, month and day below 100). |
| `DateText.DecimalRoundTrip` | src/lib.rs:79-81 | The decimal text of a number reads back as that number. |
| `DateText.FormatSample` | src/lib.rs:155 | BS 2042, month 5, day 24 is written "2042-05-24". |
| `Converter.NoonTimestamp` | src/utils.rs:3-8 | An AD day's anchor timestamp lies in that same UTC day, exactly 12 hours after its start. |
| `Converter.AdDayOf` | src/lib.rs:56-60 | The printed AD date is the UTC day containing the timestamp. |
| `Converter.EpochDayCount` | src/lib.rs:70-72 | The count is the 1-based number of the epoch day containing the instant. Any instant before the epoch is day 1. The `+ 1` overflows only when the floored day count reaches `u32::MAX`. |
| `Converter.AdToBsDate` | src/lib.rs:65-86 | The BS date found for a supported AD day is a valid table date whose count is the epoch-day count of that AD day's noon. |
| `Converter.AdToBs` | src/lib.rs:65-90 | `ad_to_bs` on a supported AD day always succeeds. Its text is exactly the `YEAR-MM-DD` rendering of the BS date of that day, and it reads back as that date. |
| `Converter.BsToAd` | src/lib.rs:39-62 | `bs_to_ad` returns the UTC day containing `epoch + MS_PER_DAY * count`, for any input `chrono` accepts as a Gregorian date (day not checked against the BS month) whose year is in the table, before it, or just after it in month 1. |
| `Converter.IsGregorianDate` | src/utils.rs:10-12 | The parser in front of `bs_to_ad` accepts no day past 31, accepts every day up to 28 of months 1..12, and accepts 2/29 exactly in Gregorian leap years. |
| `Converter.BsToAdChecked` | src/lib.rs:39-55 | Corrected input check: a BS date converts if and only if it is a valid table date, and then to the UTC day containing `epoch + MS_PER_DAY * count`. |
| `Converter.GregorianParseRejectsBsDate` | src/utils.rs:10-12 | In a Gregorian common year, BS day 2/29 exists in the table (no BS month is shorter than 29 days). But it is not a Gregorian date, so the date parser in front of `bs_to_ad` rejects it. |
| `Converter.NoonCountOfAccumulated` | src/lib.rs:67-72 | Take the AD day holding `epoch + MS_PER_DAY * n`. The count of its noon is `n` if the epoch lies after noon in its UTC day, and `n + 1` otherwise. |
| `Converter.AccumulatedOfNoonCount` | src/lib.rs:44-72 | Let an AD day from the epoch on have noon count `n`. Accumulating `n` lands on that AD day if the epoch lies after noon in its day, and on the next AD day otherwise. |
| `Converter.BsRoundTrip` | src/lib.rs:39-90 | A valid BS date converted to AD and back gives the same date if and only if the epoch lies after noon (UTC) in its own day. |
| `Converter.AdRoundTrip` | src/lib.rs:39-90 | A supported AD day from the epoch on, converted to BS and back, gives the same day if and only if the epoch lies after noon (UTC) in its own day. |
| `Converter.PreEpochClampsToFirstDay` | src/lib.rs:70-72 | Every AD day before the epoch converts to day 1 of month 1 of the first table year. |
| `Converter.AdSuccessor` | src/lib.rs:67-87 | Consecutive AD days from the epoch on convert to consecutive BS days. |
| `Converter.BsNextDayIsNextAdDay` | src/lib.rs:44-60 | The BS day after any valid date converts to the AD day after. This includes the last day of a month and the table's last day, whose successor is month 1 of the year after the table. |

## Left out

- The table words, `BS_YEAR_ZERO` and `BS_EPOCH_TIMESTAMP` live in `src/constants.rs`, which is not part of this model. They are parameters, so the concrete unit-test values (src/lib.rs:149, src/lib.rs:154-165) cannot be checked. The comment at src/lib.rs:69 gives the first year as 1970.
- `MonthTable.Table.Valid` limits the table to 10 000 000 years. The real table is far shorter. The limit only keeps every day count inside `u32`.
- Float arithmetic: `as f64 / f64::from(MS_PER_DAY)` and `floor()` (src/lib.rs:71-72) become integer floor division of the millisecond difference. The saturating `as u32` cast is modelled.
- `i64` timestamp overflow in `bs_to_ad` and in the subtraction at src/lib.rs:70 is not modelled. Integers are unbounded; table-sized counts are far from `i64` limits.
- `chrono` is not modelled. An AD date is an abstract day number, with noon UTC as its anchor (src/utils.rs:3-8). The conversion between a Gregorian year/month/day and that number is not modelled. Neither is `Utc.timestamp_millis(..).to_rfc3339()` split on `"T"` (src/lib.rs:56-62); it is modelled as the UTC day containing the timestamp. The unreachable `Err` at src/lib.rs:62 comes with the `chrono` rendering and is left out with it.
- `execute` and `Config::new` (src/lib.rs:25-37, src/lib.rs:113-140) are command-line glue and are not modelled. This includes `println!`, argument counting and the `Utc::now()` default. Their dispatch is simple: `-b` runs `ad_to_bs` and `-a` runs `bs_to_ad`. Of `parse_date` only the Gregorian validity it enforces is modelled (`Converter.IsGregorianDate`).
- Inputs that index past the table panic on the array index at src/lib.rs:95. The model excludes them by preconditions instead of an error result. For `ad_to_bs` these are the AD days whose count exceeds the table (`AdSupported`). For `bs_to_ad` they are years after the table's last year, except month 1 of the year just after it (`Elapsed.Accumulable`). Years before the table are converted without reading it.
- `ad_to_bs` has no out-of-range error; past the table it panics. Converting back and forth is the identity only under the epoch condition above (`Converter.BsRoundTrip`, `Converter.AdRoundTrip`).
- From the encoding alone, a year has 348–384 days (`Elapsed.YearLength`). Tighter bounds depend on the table data, which is not part of this model.
- MachineInts.CheckedMulU32: models the panicking overflow of a debug build; a release build wraps modulo 2^32 instead, and that is not modelled. The same holds for `MachineInts.CheckedAddU32`. Within the table neither overflows (`Elapsed.DayMillisFitsU32`, `Elapsed.TotalDays`).

## Findings

| source | as written | input that shows it | evidently intended | confidence | as-written member | corrected member |
|---|---|---|---|---|---|---|
| src/lib.rs:128-135 | With `-a`, the BS date to convert is parsed by `utils::parse_date` into a Gregorian `NaiveDate`. A valid BS date that is not a valid Gregorian date is rejected as badly formatted. | `ndate -a 2079-02-29`: BS 2079 month 2 has at least 29 days, but 2079 is not a Gregorian leap year. Every 32nd day of a 32-day BS month, and every 31st day of a month Gregorian makes 30 days long, is rejected the same way. | Accept every date that exists in the BS table. | high (not executed) | `Converter.GregorianParseRejectsBsDate` | `Converter.BsToAdChecked` |
