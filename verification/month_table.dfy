/**
 The packed Bikram Sambat month-length table. Each supported BS year is one
 word; month `m` (1..12) occupies the 2-bit field at bit offset `2(m-1)`, and a
 field value `v` stands for a month of `29 + v` days. The table's contents and
 its first year live outside this model, so a `Table` is a parameter of every
 operation rather than a constant.
 */
module MonthTable {

  const MONTHS_PER_YEAR: nat := 12
  const SHORTEST_MONTH: nat := 29
  const LONGEST_MONTH: nat := 32
  /** 4^12: twelve 2-bit fields fit below this bound. */
  const WORD_LIMIT: nat := 0x100_0000
  /** Keeps every day count of the table inside `u32` (384 days per year at most). */
  const MAX_TABLE_YEARS: nat := 10_000_000

  /** `words[i]` holds the month lengths of BS year `yearZero + i`. */
  datatype Table = Table(yearZero: int, words: seq<int>)
  {
    predicate Valid() {
      |words| <= MAX_TABLE_YEARS &&
      forall i :: 0 <= i < |words| ==> 0 <= words[i] < WORD_LIMIT
    }

    /** One past the last supported year. */
    function EndYear(): int {
      yearZero + |words|
    }

    /** Years whose word the table holds; indexing outside them panics. */
    predicate Covers(year: int) {
      yearZero <= year < EndYear()
    }

    function Word(year: int): (w: nat)
      requires Valid() && Covers(year)
      ensures w < WORD_LIMIT
    {
      words[year - yearZero]
    }
  }

  predicate IsMonth(m: int) {
    1 <= m <= MONTHS_PER_YEAR
  }

  predicate IsMonthLength(len: int) {
    SHORTEST_MONTH <= len <= LONGEST_MONTH
  }

  function Pow4(k: nat): (p: nat)
    ensures p >= 1
  {
    if k == 0 then 1 else 4 * Pow4(k - 1)
  }

  /** `(w >> 2k) & 3` for a non-negative word: shifting right by two bits is
      dividing by four, and masking with 3 keeps the remainder modulo four. */
  function Field(w: nat, k: nat): (v: nat)
    ensures v < 4
  {
    if k == 0 then w % 4 else Field(w / 4, k - 1)
  }

  /** Fields above the highest set bits of a word are zero: `(w >> 2k) & 3 == 0`
      once `w < 4^k`. */
  lemma {:induction false} FieldBeyondWord(w: nat, k: nat)
    requires w < Pow4(k)
    ensures Field(w, k) == 0
    decreases k
  {
    if k > 0 {
      FieldBeyondWord(w / 4, k - 1);
    }
  }

  /** Length in days of BS month `month` of `year` (`calculate_days_in_month`). */
  function DaysInMonth(t: Table, year: int, month: int): (len: nat)
    requires t.Valid() && t.Covers(year) && IsMonth(month)
    ensures IsMonthLength(len)
  {
    SHORTEST_MONTH + Field(t.Word(year), month - 1)
  }

  /** The reference encoding: a year given as explicit month lengths, packed
      two bits per month with the first month in the lowest bits. */
  function Pack(lengths: seq<int>): (w: nat)
    requires forall i :: 0 <= i < |lengths| ==> IsMonthLength(lengths[i])
    ensures w < Pow4(|lengths|)
  {
    if |lengths| == 0 then 0
    else
      assert IsMonthLength(lengths[0]);
      (lengths[0] - SHORTEST_MONTH) + 4 * Pack(lengths[1..])
  }

  /** The first `count` month lengths held in word `w`, field by field. */
  function UnpackN(w: nat, count: nat): (lengths: seq<int>)
    ensures |lengths| == count
    ensures forall i :: 0 <= i < count ==> IsMonthLength(lengths[i])
  {
    seq(count, i requires 0 <= i < count => SHORTEST_MONTH + Field(w, i))
  }

  /** The twelve month lengths of a year's word. */
  function Unpack(w: nat): (lengths: seq<int>)
    ensures |lengths| == MONTHS_PER_YEAR
  {
    UnpackN(w, MONTHS_PER_YEAR)
  }

  lemma {:induction false} FieldOfPack(lengths: seq<int>, k: nat)
    requires forall i :: 0 <= i < |lengths| ==> IsMonthLength(lengths[i])
    requires k < |lengths|
    ensures Field(Pack(lengths), k) == lengths[k] - SHORTEST_MONTH
    decreases k
  {
    var rest := lengths[1..];
    assert Pack(lengths) == (lengths[0] - SHORTEST_MONTH) + 4 * Pack(rest);
    if k > 0 {
      assert Pack(lengths) / 4 == Pack(rest);
      FieldOfPack(rest, k - 1);
    }
  }

  /** Decoding a packed word recovers the explicit month lengths. */
  lemma {:induction false} UnpackPack(lengths: seq<int>)
    requires |lengths| == MONTHS_PER_YEAR
    requires forall i :: 0 <= i < |lengths| ==> IsMonthLength(lengths[i])
    ensures Unpack(Pack(lengths)) == lengths
  {
    var w := Pack(lengths);
    forall k | 0 <= k < MONTHS_PER_YEAR
      ensures Unpack(w)[k] == lengths[k]
    {
      FieldOfPack(lengths, k);
    }
  }

  lemma {:induction false} PackUnpackN(w: nat, count: nat)
    requires w < Pow4(count)
    ensures Pack(UnpackN(w, count)) == w
    decreases count
  {
    if count > 0 {
      var lengths := UnpackN(w, count);
      PackUnpackN(w / 4, count - 1);
      assert lengths[1..] == UnpackN(w / 4, count - 1);
      assert lengths[0] == SHORTEST_MONTH + w % 4;
    }
  }

  /** Every word below 4^12 is the packing of exactly one year of month lengths. */
  lemma PackUnpack(w: nat)
    requires w < WORD_LIMIT
    ensures Pack(Unpack(w)) == w
  {
    assert Pow4(MONTHS_PER_YEAR) == WORD_LIMIT;
    PackUnpackN(w, MONTHS_PER_YEAR);
  }

  /** `calculate_days_in_month` reads back the month length that was packed
      into the year's word. */
  lemma DaysInMonthOfPacked(t: Table, year: int, lengths: seq<int>, month: int)
    requires t.Valid() && t.Covers(year) && IsMonth(month)
    requires |lengths| == MONTHS_PER_YEAR
    requires forall i :: 0 <= i < |lengths| ==> IsMonthLength(lengths[i])
    requires t.Word(year) == Pack(lengths)
    ensures DaysInMonth(t, year, month) == lengths[month - 1]
  {
    FieldOfPack(lengths, month - 1);
  }
}
