/**
 A calendar date packed into one unsigned 32-bit word.

   bits 31..10  year   (22 bits)
   bits  9..6   month  (4 bits)
   bits  5..1   day    (5 bits)
   bit      0   leap-year flag

 Every u32 of the original is a `bv32` here, so shifts drop high bits
 exactly as the original's `<<` on `u32` does. The month-length tables are
 `bv64` constants holding twelve 5-bit fields, January in the lowest.
 */
module Codec {
  import opened Wrappers
  import Calendar

  /** The packed word; the only way to build a meaningful one is `FromYmd`. */
  datatype BitDate = BitDate(ymdl: bv32) {

    // The accessors return the decoders' results; the decoders carry the exact value.

    function Year(): (y: bv32)
      ensures y < YEAR_LIMIT
    {
      UnpackYear(ymdl)
    }

    function Month(): (m: bv32)
      ensures m <= MONTH_MASK
    {
      UnpackMonth(ymdl)
    }

    function Day(): (d: bv32)
      ensures d <= DAY_MASK
    {
      UnpackDay(ymdl)
    }

    function LeapYear(): (l: bv32)
      ensures l <= LEAP_YEAR_MASK
    {
      UnpackLeapYear(ymdl)
    }
  }

  /** 999999-12-31 packed with a clear leap flag. */
  const MAX: bv32 := ((999_999 as bv32) << 10) | ((12 as bv32) << 6) | ((31 as bv32) << 1)
  /** 1000-01-01 packed with a clear leap flag. */
  const MIN: bv32 := ((1_000 as bv32) << 10) | ((1 as bv32) << 6) | ((1 as bv32) << 1)

  const YEAR_MASK: bv32 := 0x003F_FFFF
  const MONTH_MASK: bv32 := 0xF
  const DAY_MASK: bv32 := 0x1F
  const LEAP_YEAR_MASK: bv32 := 0x01

  /** 2^22: the first year that no longer fits the year field. */
  const YEAR_LIMIT: bv32 := 0x40_0000

  const DAYS_IN_YEAR: bv64 :=
    ((31 as bv64) << 55) | ((30 as bv64) << 50) | ((31 as bv64) << 45) | ((30 as bv64) << 40)
    | ((31 as bv64) << 35) | ((31 as bv64) << 30) | ((30 as bv64) << 25) | ((31 as bv64) << 20)
    | ((30 as bv64) << 15) | ((31 as bv64) << 10) | ((28 as bv64) << 5) | (31 as bv64)

  const DAYS_IN_LEAP_YEAR: bv64 :=
    ((31 as bv64) << 55) | ((30 as bv64) << 50) | ((31 as bv64) << 45) | ((30 as bv64) << 40)
    | ((31 as bv64) << 35) | ((31 as bv64) << 30) | ((30 as bv64) << 25) | ((31 as bv64) << 20)
    | ((30 as bv64) << 15) | ((31 as bv64) << 10) | ((29 as bv64) << 5) | (31 as bv64)

  /**
   The validating constructor. It checks only that the month is in 1..12 and
   that the day does not exceed the month's length: day 0 is accepted and the
   year is never range-checked, so a year of 2^22 or more loses its high bits.
   */
  function FromYmd(y: bv32, m: bv32, d: bv32): (r: Option<BitDate>)
    ensures r.Some? <==> 1 <= m <= 12 && d <= Calendar.MonthLength(m, Calendar.IsLeapYear(y))
    ensures r.Some? ==> r.value.Year() == y % 0x40_0000
    ensures r.Some? ==> r.value.Month() == m && r.value.Day() == d
    ensures r.Some? ==> (r.value.LeapYear() == 1 <==> Calendar.IsLeapYear(y))
  {
    var leapYear := LeapYearBit(y);
    if 1 <= m <= 12 && d <= DaysInMonth(m, leapYear) then
      Some(BitDate(Pack(y, m, d, leapYear)))
    else
      None
  }

  /** The four packed fields OR-ed together, as the constructor builds its word. */
  function Pack(y: bv32, m: bv32, d: bv32, l: bv32): (w: bv32)
    ensures m <= MONTH_MASK && d <= DAY_MASK && l <= LEAP_YEAR_MASK ==>
      && UnpackYear(w) == y % 0x40_0000
      && UnpackMonth(w) == m
      && UnpackDay(w) == d
      && UnpackLeapYear(w) == l
  {
    PackYear(y) | PackMonth(m) | PackDay(d) | PackLeapYear(l)
  }

  /** Month length read out of the packed tables; any flag other than 1 selects the common table. */
  function DaysInMonth(month: bv32, leapYearBit: bv32): (n: bv32)
    requires 1 <= month <= 12
    ensures n == Calendar.MonthLength(month, leapYearBit == 1)
  {
    var source := if leapYearBit == 1 then DAYS_IN_LEAP_YEAR else DAYS_IN_YEAR;
    ((source >> ((month - 1) * 5)) & 0x1F) as bv32
  }

  function PackYear(year: bv32): (w: bv32)
    ensures UnpackYear(w) == year % 0x40_0000
    ensures UnpackMonth(w) == 0 && UnpackDay(w) == 0 && UnpackLeapYear(w) == 0
  {
    year << 10
  }

  function PackMonth(month: bv32): (w: bv32)
    ensures month <= MONTH_MASK ==> UnpackMonth(w) == month
    ensures month <= MONTH_MASK ==> UnpackYear(w) == 0 && UnpackDay(w) == 0 && UnpackLeapYear(w) == 0
  {
    month << 6
  }

  function PackDay(day: bv32): (w: bv32)
    ensures day <= DAY_MASK ==> UnpackDay(w) == day
    ensures day <= DAY_MASK ==> UnpackYear(w) == 0 && UnpackMonth(w) == 0 && UnpackLeapYear(w) == 0
  {
    day << 1
  }

  function PackLeapYear(leapYear: bv32): (w: bv32)
    ensures leapYear <= LEAP_YEAR_MASK ==> UnpackLeapYear(w) == leapYear
    ensures leapYear <= LEAP_YEAR_MASK ==> UnpackYear(w) == 0 && UnpackMonth(w) == 0 && UnpackDay(w) == 0
  {
    leapYear
  }

  // The decoders. Rust's `>>` binds tighter than `&`, so each is a shift, then a mask;
  // arithmetically, each field is one digit of the word in a mixed radix.

  function UnpackYear(ymdl: bv32): (y: bv32)
    ensures y < YEAR_LIMIT
    ensures y == ymdl / 0x400
  {
    (ymdl >> 10) & YEAR_MASK
  }

  function UnpackMonth(ymdl: bv32): (m: bv32)
    ensures m <= MONTH_MASK
    ensures m == (ymdl / 0x40) % 0x10
  {
    (ymdl >> 6) & MONTH_MASK
  }

  function UnpackDay(ymdl: bv32): (d: bv32)
    ensures d <= DAY_MASK
    ensures d == (ymdl / 2) % 0x20
  {
    (ymdl >> 1) & DAY_MASK
  }

  function UnpackLeapYear(ymdl: bv32): (l: bv32)
    ensures l <= LEAP_YEAR_MASK
    ensures l == ymdl % 2
  {
    ymdl & LEAP_YEAR_MASK
  }

  /**
   The Gregorian leap bit. Rust's `&` binds tighter than `!=`, so the first
   test is `(year & 3) != 0`.
   */
  function LeapYearBit(year: bv32): (l: bv32)
    ensures l <= 1
    ensures l == 1 <==> Calendar.IsLeapYear(year)
  {
    if (year & 3) != 0 then 0
    else if year % 100 == 0 && year % 400 != 0 then 0
    else 1
  }

  // The month-length tables as data: twelve 5-bit fields, first entry lowest.

  predicate FitsField(s: seq<bv32>) {
    forall i :: 0 <= i < |s| ==> s[i] <= DAY_MASK
  }

  /** Packs up to twelve 5-bit values, `s[0]` in bits 4..0, `s[1]` in bits 9..5, and so on. */
  function PackTable(s: seq<bv32>): bv64
    requires |s| <= 12 && FitsField(s)
  {
    if |s| == 0 then 0 else (PackTable(s[1..]) << 5) | (s[0] as bv64)
  }

  /** The 5-bit field number `k` of a table. */
  function Field(t: bv64, k: bv64): bv64
    requires k < 12
  {
    (t >> (k * 5)) & 0x1F
  }

  /** Each table constant is exactly the calendar's twelve month lengths, packed. */
  lemma TablesArePacked()
    ensures DAYS_IN_YEAR == PackTable(Calendar.MonthLengths(false))
    ensures DAYS_IN_LEAP_YEAR == PackTable(Calendar.MonthLengths(true))
  {
  }

  /** Reading field `k` of a packed table gives back entry `k`. */
  lemma {:induction false} FieldOfPackedTable(s: seq<bv32>, k: bv64)
    requires |s| <= 12 && FitsField(s) && (k as int) < |s|
    ensures Field(PackTable(s), k) == s[k] as bv64
  {
    if k != 0 {
      FieldOfPackedTable(s[1..], k - 1);
      FieldAfterShift(PackTable(s[1..]), s[0], k);
    }
  }

  /** Prepending a field moves every existing field up by one position. */
  lemma FieldAfterShift(t: bv64, v: bv32, k: bv64)
    requires v <= DAY_MASK && 0 < k < 12
    ensures Field((t << 5) | (v as bv64), k) == Field(t, k - 1)
  {
  }
}
