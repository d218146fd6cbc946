/** Aware UTC `datetime` values as civil-time tuples. */
module Timestamps {
  import opened Ordering

  datatype DateTime = DateTime(
    year: int, month: int, day: int,
    hour: int, minute: int, second: int, microsecond: int)

  predicate IsLeapYear(y: int)
  {
    y % 4 == 0 && (y % 100 != 0 || y % 400 == 0)
  }

  function DaysInMonth(y: int, m: int): int
    requires 1 <= m <= 12
  {
    if m == 2 then (if IsLeapYear(y) then 29 else 28)
    else if m == 4 || m == 6 || m == 9 || m == 11 then 30
    else 31
  }

  /** The range `datetime` enforces on construction (years 1 to 9999). */
  predicate Valid(dt: DateTime)
  {
    && 1 <= dt.year <= 9999
    && 1 <= dt.month <= 12
    && 1 <= dt.day <= DaysInMonth(dt.year, dt.month)
    && 0 <= dt.hour < 24
    && 0 <= dt.minute < 60
    && 0 <= dt.second < 60
    && 0 <= dt.microsecond < 1000000
  }

  /** Every `datetime` Python can build is valid. */
  type Instant = dt: DateTime | Valid(dt) witness DateTime(1970, 1, 1, 0, 0, 0, 0)

  /** The fields in significance order; comparing these lexicographically
      is comparing two UTC instants chronologically. */
  function Fields(dt: DateTime): seq<int>
  {
    [dt.year, dt.month, dt.day, dt.hour, dt.minute, dt.second, dt.microsecond]
  }

  lemma FieldsInjective(a: DateTime, b: DateTime)
    ensures Fields(a) == Fields(b) ==> a == b
  {
    if Fields(a) == Fields(b) {
      assert Fields(a)[0] == Fields(b)[0] && Fields(a)[1] == Fields(b)[1];
      assert Fields(a)[2] == Fields(b)[2] && Fields(a)[3] == Fields(b)[3];
      assert Fields(a)[4] == Fields(b)[4] && Fields(a)[5] == Fields(b)[5];
      assert Fields(a)[6] == Fields(b)[6];
    }
  }

  /** `a < b` on aware datetimes. */
  predicate Before(a: DateTime, b: DateTime)
  {
    LexLess(Fields(a), Fields(b))
  }

  /** The same instant with the sub-second part dropped. */
  function WholeSecond(dt: Instant): (r: Instant)
    ensures r.microsecond == 0
    ensures Fields(r)[..6] == Fields(dt)[..6]
    ensures dt.microsecond == 0 ==> r == dt
  {
    dt.(microsecond := 0)
  }
}
