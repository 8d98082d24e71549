/** Calendar date-times at one-second resolution, ordered the way Python's
    `datetime` objects compare, and the "minus one second" step the period
    generator uses to close a period just before the next payday. */
module Calendar {

  /** A naive (time-zone free) date-time. Fields are plain integers; `Valid`
      says which combinations denote a real instant. */
  datatype DateTime = DateTime(year: int, month: int, day: int, hour: int, minute: int, second: int)

  /** Gregorian leap-year rule. */
  predicate IsLeapYear(y: int) {
    y % 4 == 0 && (y % 100 != 0 || y % 400 == 0)
  }

  /** Number of days in month `m` of year `y`. */
  function DaysInMonth(y: int, m: int): (n: int)
    requires 1 <= m <= 12
    ensures 28 <= n <= 31
    ensures n == 29 <==> m == 2 && IsLeapYear(y)
  {
    if m == 2 then (if IsLeapYear(y) then 29 else 28)
    else if m == 4 || m == 6 || m == 9 || m == 11 then 30
    else 31
  }

  /** Every value of Python's `datetime` satisfies this. */
  predicate Valid(d: DateTime) {
    && 1 <= d.month <= 12
    && 1 <= d.day <= DaysInMonth(d.year, d.month)
    && 0 <= d.hour < 24
    && 0 <= d.minute < 60
    && 0 <= d.second < 60
  }

  /** Strict chronological order: lexicographic on (year, month, day, hour, minute, second). */
  predicate Less(a: DateTime, b: DateTime) {
    if a.year != b.year then a.year < b.year
    else if a.month != b.month then a.month < b.month
    else if a.day != b.day then a.day < b.day
    else if a.hour != b.hour then a.hour < b.hour
    else if a.minute != b.minute then a.minute < b.minute
    else a.second < b.second
  }

  predicate LessEq(a: DateTime, b: DateTime) {
    a == b || Less(a, b)
  }

  lemma LessEqTransitive(a: DateTime, b: DateTime, c: DateTime)
    requires LessEq(a, b) && LessEq(b, c)
    ensures LessEq(a, c)
  {
  }

  /** Exactly one of `a < b`, `a == b`, `b < a` holds. */
  lemma Trichotomy(a: DateTime, b: DateTime)
    ensures Less(a, b) || a == b || Less(b, a)
    ensures !(Less(a, b) && Less(b, a))
    ensures !Less(a, a)
  {
  }

  /** `d - timedelta(seconds=1)`: the instant one second before `d`, borrowing
      from minutes, hours, days, months and years as needed. */
  function PrevSecond(d: DateTime): (r: DateTime)
    requires Valid(d)
    ensures Valid(r)
    ensures Less(r, d)
  {
    if d.second > 0 then DateTime(d.year, d.month, d.day, d.hour, d.minute, d.second - 1)
    else if d.minute > 0 then DateTime(d.year, d.month, d.day, d.hour, d.minute - 1, 59)
    else if d.hour > 0 then DateTime(d.year, d.month, d.day, d.hour - 1, 59, 59)
    else if d.day > 1 then DateTime(d.year, d.month, d.day - 1, 23, 59, 59)
    else if d.month > 1 then DateTime(d.year, d.month - 1, DaysInMonth(d.year, d.month - 1), 23, 59, 59)
    else DateTime(d.year - 1, 12, 31, 23, 59, 59)
  }

  /** One second before `d` is the immediate predecessor of `d`: no valid
      instant lies strictly between them, so `t <= d - 1s` exactly when `t < d`. */
  lemma PrevSecondIsPredecessor(t: DateTime, d: DateTime)
    requires Valid(t) && Valid(d)
    ensures LessEq(t, PrevSecond(d)) <==> Less(t, d)
  {
  }
}
