# bit-date in Dafny

A model of `BitDate`, a calendar date packed into one unsigned 32-bit word.
The year sits in bits 31..10, the month in bits 9..6, the day in bits 5..1
and a Gregorian leap-year flag in bit 0. The model covers the validating
constructor `from_ymd`, the month-length lookup over two packed `u64`
tables, the leap-year rule, the pack and unpack helpers, the accessors and
the `MIN`/`MAX` constants.

Files:

- `wrappers.dfy` holds `Option`, the constructor's result.
- `calendar.dfy` holds the Gregorian calendar as an independent reference:
  the leap rule, the twelve month lengths and "is a date".
- `codec.dfy` holds the codec itself. Every `u32` is a `bv32`, so `y << 10`
  drops the high bits of a year of 2^22 or more, as Rust's `<<` on `u32`
  does. The tables are `bv64` constants written exactly as in the source.
- `properties.dfy` holds the lemmas: round trip, injectivity, canonical
  form, agreement with the calendar, the boundary constants, the
  scenarios, and what happens past 2^22.

Points of fidelity:

- Rust's `>>` binds tighter than `&`, so `ymdl >> 10 & MASK` is a shift,
  then a mask.
- Rust's `&` binds tighter than `!=`, so `year & 3 != 0` is
  `(year & 3) != 0`.
- `from_ymd` checks only `1 <= m <= 12` and `d <= days_in_month(..)`.
  Day 0 is accepted. The year is never range-checked, even though `MIN` and
  `MAX` suggest the range 1000..999999. The model adds no check either.
  Those bounds appear only as lemma preconditions.
- `days_in_month` is only called once the month is known to be in 1..12,
  so its contract requires that.
- A leap argument other than 1 selects the common-year table, as in the
  source.
- The date's intended invariants are a year in 1000..999999 and a day of at
  least 1. The code enforces neither, so the model follows the code. The
  gap shows in `DateProperties.DayZeroAccepted` and in the two lemmas about
  years of 2^22 or more.

The calendar reference is stated over the same unsigned 32-bit values the
source takes. There, `%` is the remainder of unsigned values.

## Model

| member | source | states |
|---|---|---|
| `Codec.FromYmd` | src/main.rs:60-74 | The result is `Some` exactly when the month is in 1..12 and the day is at most the calendar length of that month in that year. On success, the decoded year is the input modulo 2^22 and the decoded month and day are the inputs. The leap flag is set iff the year is a Gregorian leap year. |
| `Codec.Pack` | src/main.rs:63-69 | When month, day and flag fit their masks, each unpacker reads back its own field of the OR of the four packed fields. The year comes back modulo 2^22. |
| `Codec.DaysInMonth` | src/main.rs:84-91 | For a month in 1..12, the 5-bit field read out of the selected table equals the calendar length of that month. A flag of 1 means a leap year. |
| `Codec.PackYear` | src/main.rs:93-95 | The year shifted into place unpacks to the year modulo 2^22 and leaves the month, day and leap fields zero. |
| `Codec.PackMonth` | src/main.rs:97-99 | A month that fits 4 bits unpacks back to itself and touches no other field. |
| `Codec.PackDay` | src/main.rs:101-103 | A day that fits 5 bits unpacks back to itself and touches no other field. |
| `Codec.PackLeapYear` | src/main.rs:105-107 | A flag that fits 1 bit unpacks back to itself and touches no other field. |
| `Codec.UnpackYear` | src/main.rs:109-111 | The decoded year is the word divided by 2^10, so it is below 2^22. The mask drops nothing. |
| `Codec.UnpackMonth` | src/main.rs:113-115 | The decoded month is the word divided by 2^6, taken modulo 16. |
| `Codec.UnpackDay` | src/main.rs:117-119 | The decoded day is the word divided by 2, taken modulo 32. |
| `Codec.UnpackLeapYear` | src/main.rs:121-123 | The decoded flag is the word modulo 2. |
| `Codec.BitDate.Year` | src/main.rs:136-138 | `year()` is below 2^22. |
| `Codec.BitDate.Month` | src/main.rs:140-142 | `month()` fits 4 bits. |
| `Codec.BitDate.Day` | src/main.rs:144-146 | `day()` fits 5 bits. |
| `Codec.BitDate.LeapYear` | src/main.rs:148-150 | `leap_year()` is 0 or 1. |
| `Codec.LeapYearBit` | src/main.rs:125-134 | The bit is 0 or 1. It is 1 exactly when the year is divisible by 4 and, when it is a century, also by 400. |
| `Codec.TablesArePacked` | src/main.rs:35-58 | Each table constant equals the calendar's twelve month lengths packed as 5-bit fields, January lowest. The common table has 28 days in February and the leap table 29. |
| `Codec.FieldOfPackedTable` | src/main.rs:90 | Reading 5-bit field `k` of a packing of up to twelve values below 32 returns value `k`. The proof is by induction over the packing. |
| `DateProperties.LowBitsAreModFour` | src/main.rs:126 | `(year & 3) != 0` holds exactly when the year is not a multiple of 4. |
| `DateProperties.LeapYearExamples` | src/main.rs:125-134 | 2000, 2400 and 2024 are leap. 1900, 2023, 1000 and 999999 are not. |
| `DateProperties.DaysInMonthValues` | src/main.rs:84-91 | The lookup yields 31, 28 or 29, 31, 30, 31, 30, 31, 31, 30, 31, 30, 31 for months 1 to 12. February is 29 exactly when the flag is 1. |
| `DateProperties.TablesDifferOnlyInFebruary` | src/main.rs:35-58 | The leap and common tables give the same length for every month but February, where the leap table has one day more. |
| `DateProperties.TablesDecodeToMonthLengths` | src/main.rs:35-58 | Every 5-bit field of both constants decodes to the calendar length of the corresponding month. |
| `DateProperties.AcceptedFieldsAreDisjoint` | src/main.rs:62-69 | An accepted month fits 4 bits and an accepted day fits 5 bits. The four shifted fields pairwise share no bit. |
| `DateProperties.RoundTrip` | src/main.rs:60-70 | For a year below 2^22 and an accepted month and day, `year()`, `month()` and `day()` return the inputs. `leap_year()` equals both the year's leap bit and the leap bit of the decoded year. |
| `DateProperties.FromYmdInjective` | src/main.rs:63-69 | Two accepted triples with years below 2^22 that pack to the same word are the same triple. |
| `DateProperties.FieldsDetermineWord` | src/main.rs:4 | Every word equals year·2^10 + month·2^6 + day·2 + flag of its own decoded fields, so two words with equal fields are equal. |
| `DateProperties.Reencode` | src/main.rs:60-74 | A word whose month, day and leap flag pass the constructor's checks, with the flag equal to its year's leap bit, is exactly what `from_ymd` builds from its decoded fields. |
| `DateProperties.AcceptedIsCalendarDate` | src/main.rs:60-74 | An accepted triple with a year below 2^22 and a day of at least 1 decodes to a real Gregorian date whose leap flag matches its year. |
| `DateProperties.CalendarDateAccepted` | src/main.rs:60-74 | Every real Gregorian date is accepted, whatever its year. |
| `DateProperties.DayZeroAccepted` | src/main.rs:62 | Day 0 is not a date, yet it is accepted in every month 1..12 and decodes as day 0. |
| `DateProperties.MonthOutOfRangeRejected` | src/main.rs:62 | Month 0 or any month above 12 is rejected for every year and day. |
| `DateProperties.MinIsFirstDate` | src/main.rs:28 | `MIN` decodes to 1000-01-01 with a clear flag and equals what `from_ymd(1000, 1, 1)` builds. |
| `DateProperties.MaxIsLastDate` | src/main.rs:27 | `MAX` decodes to 999999-12-31 with a clear flag and equals what `from_ymd(999999, 12, 31)` builds. |
| `DateProperties.LeapDay2024Accepted` | src/main.rs:172-175 | `from_ymd(2024, 2, 29)` succeeds and decodes to 2024, 2, 29 with the leap flag set. |
| `DateProperties.InvalidDatesRejected` | src/main.rs:60-74 | 2023-02-29, 2024-02-30, month 13 and month 0 are rejected. |
| `DateProperties.WrappedYearsCollide` | src/main.rs:93-95 | Years 2000 and 2000 + 2^22 pack the same date to the same word. Injectivity needs years below 2^22. |
| `DateProperties.WrappedYearLeapMismatch` | src/main.rs:60-70 | 4194404-02-29 is accepted because 4194404 is leap. It decodes to year 100, which is not leap, so the decoded triple is not a date. |

## Left out

- The `Display`, `Debug` and `Binary` impls (src/main.rs:6-22) only format the accessors or the raw word. Text formatting is not modelled.
- `main` (src/main.rs:171-179) prints to standard output. Only its input is kept, as `DateProperties.LeapDay2024Accepted`.
- `from_packed_integer` and `ymdl` (src/main.rs:76-82) wrap and unwrap the word. They are the `BitDate` constructor and its `ymdl` field.
- The date-arithmetic API (`eom`, `update_*`, `add_*`, `sub_*`, src/main.rs:152-168) exists only as comments, with no behaviour to model.
- The model does not cover calls to `days_in_month` with a month outside 1..12. In the source such a call is unreachable: `from_ymd` checks the month before the lookup.
- Codec.BitDate.Year: states only that the year is below 2^22. It returns `Codec.UnpackYear`'s result, whose contract gives the exact value. Restating the division here makes the constructor's proof too costly for the solver.
- Codec.BitDate.Month: states only the 4-bit bound. The exact value is stated on `Codec.UnpackMonth`, for the same reason.
- Codec.BitDate.Day: states only the 5-bit bound. The exact value is stated on `Codec.UnpackDay`, for the same reason.
- Codec.BitDate.LeapYear: states only the 1-bit bound. The exact value is stated on `Codec.UnpackLeapYear`, for the same reason.
