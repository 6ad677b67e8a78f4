/** Python's `datetime.date`: proleptic Gregorian dates of years 1 to 9999,
    with the one-day steps that `date + timedelta(±1)` performs. */
module Calendar {

  const MinYear := 1
  const MaxYear := 9999

  datatype Date = Date(year: int, month: int, day: int)

  predicate IsLeap(y: int) {
    y % 4 == 0 && (y % 100 != 0 || y % 400 == 0)
  }

  function DaysInMonth(y: int, m: int): (n: int)
    requires 1 <= m <= 12
    ensures 28 <= n <= 31
  {
    if m == 2 then (if IsLeap(y) then 29 else 28)
    else if m == 4 || m == 6 || m == 9 || m == 11 then 30
    else 31
  }

  /** The values `datetime.date(year, month, day)` accepts. */
  predicate Valid(d: Date) {
    && MinYear <= d.year <= MaxYear
    && 1 <= d.month <= 12
    && 1 <= d.day <= DaysInMonth(d.year, d.month)
  }

  /** Months counted from January of year 0: a month index and a (year, month)
      pair with 1 <= month <= 12 determine each other. */
  function MonthIndex(year: int, month: int): int {
    year * 12 + month - 1
  }

  lemma MonthIndexInjective(y1: int, m1: int, y2: int, m2: int)
    requires 1 <= m1 <= 12 && 1 <= m2 <= 12
    requires MonthIndex(y1, m1) == MonthIndex(y2, m2)
    ensures y1 == y2 && m1 == m2
  {
  }

  /** `d + timedelta(1)`; the result is out of range only after 9999-12-31. */
  function NextDay(d: Date): (r: Date)
    requires Valid(d)
    ensures Valid(r) || d == Date(MaxYear, 12, 31)
  {
    if d.day < DaysInMonth(d.year, d.month) then Date(d.year, d.month, d.day + 1)
    else if d.month < 12 then Date(d.year, d.month + 1, 1)
    else Date(d.year + 1, 1, 1)
  }

  /** `d + timedelta(-1)`; `OverflowError` on 0001-01-01 is excluded. */
  function PrevDay(d: Date): (r: Date)
    requires Valid(d) && d != Date(MinYear, 1, 1)
    ensures Valid(r)
    ensures NextDay(r) == d
  {
    if d.day > 1 then Date(d.year, d.month, d.day - 1)
    else if d.month > 1 then Date(d.year, d.month - 1, DaysInMonth(d.year, d.month - 1))
    else Date(d.year - 1, 12, 31)
  }

  /** An integer key that orders valid dates as Python compares them. */
  function Ordinal(d: Date): int {
    (d.year * 13 + d.month) * 32 + d.day
  }

  predicate Le(a: Date, b: Date) {
    Ordinal(a) <= Ordinal(b)
  }

  /** On valid dates the key order is the calendar (lexicographic) order. */
  lemma LeIsCalendarOrder(a: Date, b: Date)
    requires Valid(a) && Valid(b)
    ensures Le(a, b) <==>
      (a.year < b.year
       || (a.year == b.year && a.month < b.month)
       || (a.year == b.year && a.month == b.month && a.day <= b.day))
  {
    if a.year < b.year {
      assert (a.year * 13 + a.month) * 32 + a.day < (b.year * 13 + b.month) * 32 + b.day;
    } else if a.year > b.year {
      assert (b.year * 13 + b.month) * 32 + b.day < (a.year * 13 + a.month) * 32 + a.day;
    }
  }
}
