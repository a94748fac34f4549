/**
 The proleptic Gregorian calendar, stated independently of any bit layout.
 Years, months and days are the same unsigned 32-bit quantities the packed
 date takes as input, so `%` below is the remainder of unsigned values.
 */
module Calendar {

  /** A year is leap when divisible by 4, except centuries not divisible by 400. */
  predicate IsLeapYear(y: bv32) {
    y % 4 == 0 && (y % 100 != 0 || y % 400 == 0)
  }

  /** The lengths of January through December. */
  function MonthLengths(leap: bool): (s: seq<bv32>)
    ensures |s| == 12
    ensures forall i :: 0 <= i < 12 ==> 28 <= s[i] <= 31
  {
    [31, if leap then 29 else 28, 31, 30, 31, 30, 31, 31, 30, 31, 30, 31]
  }

  /** Number of days of month `m` (1 = January) in a leap or common year. */
  function MonthLength(m: bv32, leap: bool): (n: bv32)
    requires 1 <= m <= 12
    ensures 28 <= n <= 31
  {
    MonthLengths(leap)[(m as int) - 1]
  }

  /** `(y, m, d)` names a day that exists in the calendar. */
  predicate IsDate(y: bv32, m: bv32, d: bv32) {
    1 <= m <= 12 && 1 <= d <= MonthLength(m, IsLeapYear(y))
  }
}
