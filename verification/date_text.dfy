/**
 The text `ad_to_bs` returns: `format!("{}-{}-{}", year, {:0>2} month,
 {:0>2} day)`. The year is printed as an unpadded decimal (with a leading '-'
 when negative); month and day are left-padded with '0' to width 2. `ParseBs`
 reads such text back and is the inverse the formatting is checked against.
 */
module DateText {
  import opened MachineInts
  import opened Elapsed

  predicate IsDigit(c: char) {
    '0' <= c <= '9'
  }

  predicate AllDigits(s: string) {
    forall i :: 0 <= i < |s| ==> IsDigit(s[i])
  }

  function DigitChar(d: nat): (c: char)
    requires d < 10
    ensures IsDigit(c)
  {
    ('0' as int + d) as char
  }

  function DigitValue(c: char): (d: nat)
    requires IsDigit(c)
    ensures d < 10
  {
    c as int - '0' as int
  }

  /** `n` in decimal without leading zeros (Rust's `{}` for an unsigned value). */
  function NatToDecimal(n: nat): (s: string)
    ensures 1 <= |s|
    ensures AllDigits(s)
    ensures n < 10 <==> |s| == 1
    ensures n < 100 <==> |s| <= 2
    ensures s[0] == '0' <==> n == 0
    decreases n
  {
    if n < 10 then [DigitChar(n)]
    else NatToDecimal(n / 10) + [DigitChar(n % 10)]
  }

  /** Rust's `{}` for a signed year. */
  function IntToDecimal(x: int): (s: string)
    ensures 1 <= |s|
    ensures x < 0 <==> s[0] == '-'
    ensures x >= 0 ==> AllDigits(s) && (s[0] == '0' <==> x == 0)
    ensures x < 0 ==> 2 <= |s| && AllDigits(s[1..]) && s[1] != '0'
  {
    if x < 0 then "-" + NatToDecimal(-x) else NatToDecimal(x)
  }

  /** `{:0>2}`: pad on the left with '0' up to width 2; longer text is kept. */
  function PadTwo(s: string): (r: string)
    ensures |s| >= 2 ==> r == s
    ensures |s| < 2 ==> |r| == 2 && r[2 - |s|..] == s
    ensures forall i :: 0 <= i < |r| - |s| ==> r[i] == '0'
  {
    if |s| == 0 then "00" else if |s| == 1 then "0" + s else s
  }

  /** `{:0>2}` applied to a number below 100: exactly two digits. */
  function TwoDigits(n: nat): (s: string)
    requires n < 100
    ensures |s| == 2 && AllDigits(s)
  {
    PadTwo(NatToDecimal(n))
  }

  /** The "-MM-DD" part of the answer. */
  function MonthDaySuffix(month: nat, day: nat): (s: string)
    requires month < 100 && day < 100
    ensures |s| == 6
    ensures s[0] == '-' && s[1..3] == TwoDigits(month)
    ensures s[3] == '-' && s[4..] == TwoDigits(day)
  {
    var mm := TwoDigits(month);
    var dd := TwoDigits(day);
    var s := ['-', mm[0], mm[1], '-', dd[0], dd[1]];
    assert s[1..3] == mm;
    assert s[4..] == dd;
    s
  }

  /** The string `ad_to_bs` returns for a BS date: the year text, then the
      six characters "-MM-DD". */
  function FormatBs(date: BsDate): (s: string)
    requires 0 <= date.month < 100 && 0 <= date.day < 100
    ensures |s| == |IntToDecimal(date.year)| + 6
    ensures s[..|s| - 6] == IntToDecimal(date.year)
    ensures s[|s| - 6..] == MonthDaySuffix(date.month, date.day)
    ensures s[|s| - 6] == '-' && s[|s| - 3] == '-'
  {
    var y := IntToDecimal(date.year);
    var suffix := MonthDaySuffix(date.month, date.day);
    var s := y + suffix;
    assert s[..|y|] == y;
    assert s[|y|..] == suffix;
    s
  }

  /** The value of a string of decimal digits; the empty string is 0. */
  function DecimalValue(s: string): nat
    requires AllDigits(s)
  {
    if |s| == 0 then 0 else 10 * DecimalValue(s[..|s| - 1]) + DigitValue(s[|s| - 1])
  }

  /** A year as `{}` prints it: optional '-', then at least one digit. */
  function ParseYear(s: string): Option<int> {
    if 2 <= |s| && s[0] == '-' && AllDigits(s[1..]) then Some(-(DecimalValue(s[1..]) as int))
    else if 1 <= |s| && AllDigits(s) then Some(DecimalValue(s))
    else None
  }

  /** Reads `YEAR-MM-DD` back into a date; `None` for any other shape. */
  function ParseBs(s: string): Option<BsDate> {
    if |s| < 7 || s[|s| - 6] != '-' || s[|s| - 3] != '-' then None
    else if !AllDigits(s[|s| - 5..|s| - 3]) || !AllDigits(s[|s| - 2..]) then None
    else
      match ParseYear(s[..|s| - 6])
      case None => None
      case Some(year) =>
        Some(BsDate(year, DecimalValue(s[|s| - 5..|s| - 3]), DecimalValue(s[|s| - 2..])))
  }

  lemma {:induction false} DecimalRoundTrip(n: nat)
    ensures DecimalValue(NatToDecimal(n)) == n
    decreases n
  {
    if n >= 10 {
      var s := NatToDecimal(n);
      DecimalRoundTrip(n / 10);
      assert s[..|s| - 1] == NatToDecimal(n / 10);
    }
  }

  lemma TwoDigitsRoundTrip(n: nat)
    requires n < 100
    ensures DecimalValue(TwoDigits(n)) == n
  {
    var s := NatToDecimal(n);
    DecimalRoundTrip(n);
    if |s| == 1 {
      var p := PadTwo(s);
      assert p == ['0', s[0]];
      assert p[..1] == "0";
      assert s[..0] == "";
    }
  }

  lemma YearRoundTrip(year: int)
    ensures ParseYear(IntToDecimal(year)) == Some(year)
  {
    var s := IntToDecimal(year);
    if year < 0 {
      DecimalRoundTrip(-year);
      assert s == "-" + NatToDecimal(-year);
      assert s[1..] == NatToDecimal(-year);
      assert ParseYear(s) == Some(-(DecimalValue(s[1..]) as int));
    } else {
      DecimalRoundTrip(year);
      assert s == NatToDecimal(year);
      assert s[0] != '-';
    }
  }

  /** Reading the formatted text gives back the date. */
  lemma FormatRoundTrip(date: BsDate)
    requires 0 <= date.month < 100 && 0 <= date.day < 100
    ensures ParseBs(FormatBs(date)) == Some(date)
  {
    var s := FormatBs(date);
    var suffix := MonthDaySuffix(date.month, date.day);
    var k := |s| - 6;
    assert s[k..] == suffix;
    SliceOfSuffix(s, k, 1, 3);
    SliceOfSuffix(s, k, 4, 6);
    assert s[|s| - 5..|s| - 3] == TwoDigits(date.month);
    assert s[|s| - 2..] == TwoDigits(date.day);
    TwoDigitsRoundTrip(date.month);
    TwoDigitsRoundTrip(date.day);
    YearRoundTrip(date.year);
  }

  lemma SliceOfSuffix(s: string, k: nat, i: nat, j: nat)
    requires k <= |s| && i <= j <= |s| - k
    ensures s[k..][i..j] == s[k + i..k + j]
  {
  }

  /** The answer expected by ndate's `test_bs_to_ad` (src/lib.rs:153-157). */
  lemma FormatSample()
    ensures FormatBs(BsDate(2042, 5, 24)) == "2042-05-24"
  {
    SampleYearText();
    assert MonthDaySuffix(5, 24) == "-05-24" by {
      assert TwoDigits(5) == "05" by {
        assert NatToDecimal(5) == "5";
      }
      assert TwoDigits(24) == "24" by {
        assert NatToDecimal(2) == "2";
        assert NatToDecimal(24) == "24";
      }
    }
  }

  lemma SampleYearText()
    ensures IntToDecimal(2042) == "2042"
  {
    assert NatToDecimal(2) == "2";
    assert NatToDecimal(20) == "20";
    assert NatToDecimal(204) == "204";
  }
}
