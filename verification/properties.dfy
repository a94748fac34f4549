/**
 Properties of the packed-date codec: the leap rule and month table agree
 with the calendar, accepted dates round-trip and are canonical, the
 boundary constants are what they claim, and what happens past 2^22.
 */
module DateProperties {
  import opened Wrappers
  import Calendar
  import opened Codec

  // ---- Leap rule and month table ----

  /** The low two bits of a year are zero exactly when it is a multiple of 4. */
  lemma LowBitsAreModFour(year: bv32)
    ensures ((year & 3) != 0) <==> (year % 4 != 0)
  {
  }

  lemma LeapYearExamples()
    ensures LeapYearBit(2000) == 1 && LeapYearBit(2400) == 1 && LeapYearBit(2024) == 1
    ensures LeapYearBit(1900) == 0 && LeapYearBit(2023) == 0
    ensures LeapYearBit(1000) == 0 && LeapYearBit(999_999) == 0
  {
  }

  /** The table lookup yields the twelve Gregorian month lengths. */
  lemma DaysInMonthValues(l: bv32)
    ensures DaysInMonth(1, l) == 31 && DaysInMonth(2, l) == (if l == 1 then 29 else 28)
    ensures DaysInMonth(3, l) == 31 && DaysInMonth(4, l) == 30 && DaysInMonth(5, l) == 31
    ensures DaysInMonth(6, l) == 30 && DaysInMonth(7, l) == 31 && DaysInMonth(8, l) == 31
    ensures DaysInMonth(9, l) == 30 && DaysInMonth(10, l) == 31 && DaysInMonth(11, l) == 30
    ensures DaysInMonth(12, l) == 31
  {
  }

  /** The leap and common tables agree everywhere but February, where leap adds one day. */
  lemma TablesDifferOnlyInFebruary(m: bv32)
    requires 1 <= m <= 12
    ensures m != 2 ==> DaysInMonth(m, 1) == DaysInMonth(m, 0)
    ensures m == 2 ==> DaysInMonth(m, 1) == DaysInMonth(m, 0) + 1
  {
  }

  /** Every field of both table constants decodes to the calendar's month length. */
  lemma TablesDecodeToMonthLengths(k: bv64)
    requires k < 12
    ensures Field(DAYS_IN_YEAR, k) == Calendar.MonthLengths(false)[k] as bv64
    ensures Field(DAYS_IN_LEAP_YEAR, k) == Calendar.MonthLengths(true)[k] as bv64
  {
    TablesArePacked();
    assert Field(DAYS_IN_YEAR, k) == Calendar.MonthLengths(false)[k] as bv64 by {
      FieldOfPackedTable(Calendar.MonthLengths(false), k);
    }
    assert Field(DAYS_IN_LEAP_YEAR, k) == Calendar.MonthLengths(true)[k] as bv64 by {
      FieldOfPackedTable(Calendar.MonthLengths(true), k);
    }
  }

  // ---- Layout of an accepted date ----

  /** An accepted month and day fit their masks, so the four shifted fields never overlap. */
  lemma AcceptedFieldsAreDisjoint(y: bv32, m: bv32, d: bv32)
    requires FromYmd(y, m, d).Some?
    ensures m <= MONTH_MASK && d <= DAY_MASK
    ensures PackYear(y) & PackMonth(m) == 0 && PackYear(y) & PackDay(d) == 0
    ensures PackYear(y) & PackLeapYear(LeapYearBit(y)) == 0
    ensures PackMonth(m) & PackDay(d) == 0 && PackMonth(m) & PackLeapYear(LeapYearBit(y)) == 0
    ensures PackDay(d) & PackLeapYear(LeapYearBit(y)) == 0
  {
  }

  /** Below 2^22 the accessors return exactly the constructor's inputs and the year's own leap bit. */
  lemma RoundTrip(y: bv32, m: bv32, d: bv32)
    requires y < YEAR_LIMIT
    requires FromYmd(y, m, d).Some?
    ensures FromYmd(y, m, d).value.Year() == y
    ensures FromYmd(y, m, d).value.Month() == m
    ensures FromYmd(y, m, d).value.Day() == d
    ensures FromYmd(y, m, d).value.LeapYear() == LeapYearBit(y)
    ensures FromYmd(y, m, d).value.LeapYear() == LeapYearBit(FromYmd(y, m, d).value.Year())
  {
  }

  /** Distinct accepted triples with years below 2^22 pack to distinct words. */
  lemma FromYmdInjective(y1: bv32, m1: bv32, d1: bv32, y2: bv32, m2: bv32, d2: bv32)
    requires y1 < YEAR_LIMIT && y2 < YEAR_LIMIT
    requires FromYmd(y1, m1, d1).Some? && FromYmd(y2, m2, d2).Some?
    requires FromYmd(y1, m1, d1).value.ymdl == FromYmd(y2, m2, d2).value.ymdl
    ensures y1 == y2 && m1 == m2 && d1 == d2
  {
    RoundTrip(y1, m1, d1);
    RoundTrip(y2, m2, d2);
  }

  /**
   A word whose fields satisfy the constructor's checks, with the leap bit of
   its own year, is exactly what the constructor builds from those fields:
   the packed form is canonical.
   */
  lemma Reencode(b: BitDate)
    requires 1 <= b.Month() <= 12 && b.Day() <= DaysInMonth(b.Month(), b.LeapYear())
    requires b.LeapYear() == LeapYearBit(b.Year())
    ensures FromYmd(b.Year(), b.Month(), b.Day()) == Some(b)
  {
  }

  /** The four decoded fields determine the whole word: decoding loses nothing. */
  lemma FieldsDetermineWord(b: BitDate)
    ensures b.ymdl == b.Year() * 0x400 + b.Month() * 0x40 + b.Day() * 2 + b.LeapYear()
  {
  }

  // ---- Relation to real calendar dates ----

  /** An accepted triple with a year below 2^22 and a day of at least 1 decodes to a calendar date. */
  lemma AcceptedIsCalendarDate(y: bv32, m: bv32, d: bv32)
    requires y < YEAR_LIMIT && 1 <= d
    requires FromYmd(y, m, d).Some?
    ensures Calendar.IsDate(FromYmd(y, m, d).value.Year(), FromYmd(y, m, d).value.Month(), FromYmd(y, m, d).value.Day())
    ensures FromYmd(y, m, d).value.LeapYear() == 1 <==> Calendar.IsLeapYear(FromYmd(y, m, d).value.Year())
  {
  }

  /** Every calendar date is accepted, whatever its year. */
  lemma CalendarDateAccepted(y: bv32, m: bv32, d: bv32)
    requires Calendar.IsDate(y, m, d)
    ensures FromYmd(y, m, d).Some?
  {
  }

  /** Day 0 is not a calendar date, yet the constructor accepts it in every valid month. */
  lemma DayZeroAccepted(y: bv32, m: bv32)
    requires 1 <= m <= 12
    ensures !Calendar.IsDate(y, m, 0)
    ensures FromYmd(y, m, 0).Some? && FromYmd(y, m, 0).value.Day() == 0
  {
  }

  lemma MonthOutOfRangeRejected(y: bv32, m: bv32, d: bv32)
    requires m == 0 || 12 < m
    ensures FromYmd(y, m, d) == None
  {
  }

  // ---- Boundary constants and scenarios ----

  lemma MinIsFirstDate()
    ensures BitDate(MIN).Year() == 1000 && BitDate(MIN).Month() == 1
    ensures BitDate(MIN).Day() == 1 && BitDate(MIN).LeapYear() == 0
    ensures FromYmd(1000, 1, 1) == Some(BitDate(MIN))
  {
  }

  lemma MaxIsLastDate()
    ensures BitDate(MAX).Year() == 999_999 && BitDate(MAX).Month() == 12
    ensures BitDate(MAX).Day() == 31 && BitDate(MAX).LeapYear() == 0
    ensures FromYmd(999_999, 12, 31) == Some(BitDate(MAX))
  {
  }

  lemma LeapDay2024Accepted()
    ensures FromYmd(2024, 2, 29).Some?
    ensures FromYmd(2024, 2, 29).value.Year() == 2024
    ensures FromYmd(2024, 2, 29).value.Month() == 2
    ensures FromYmd(2024, 2, 29).value.Day() == 29
    ensures FromYmd(2024, 2, 29).value.LeapYear() == 1
  {
  }

  lemma InvalidDatesRejected()
    ensures FromYmd(2023, 2, 29) == None
    ensures FromYmd(2024, 2, 30) == None
    ensures FromYmd(2024, 13, 1) == None
    ensures FromYmd(2024, 0, 1) == None
  {
  }

  // ---- Years of 2^22 and beyond ----

  /** Years 2^22 apart with the same leap bit pack to the same word. */
  lemma WrappedYearsCollide()
    ensures FromYmd(2000, 1, 1).Some?
    ensures FromYmd(2000, 1, 1) == FromYmd(0x40_0000 + 2000, 1, 1)
  {
  }

  /**
   Year 4194404 is leap, so its 29 February is accepted; the year field keeps
   only 100, which is not leap, so the decoded triple is no calendar date.
   */
  lemma WrappedYearLeapMismatch()
    ensures FromYmd(4_194_404, 2, 29).Some?
    ensures FromYmd(4_194_404, 2, 29).value.Year() == 100
    ensures FromYmd(4_194_404, 2, 29).value.LeapYear() == 1
    ensures !Calendar.IsDate(100, 2, 29)
  {
  }
}
