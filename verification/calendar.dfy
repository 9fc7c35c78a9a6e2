/**
 The proleptic Gregorian calendar of Python's `datetime`, as far as the usage windows need it:
 month lengths, the comparison of UTC datetimes field by field, and the timeline of
 microseconds that the comparison orders.
 */
module Calendar {

  const MICROS_PER_DAY: int := 86_400_000_000
  const MIN_YEAR := 1
  const MAX_YEAR := 9999

  /** A UTC datetime; `micros` counts from midnight. */
  datatype Instant = Instant(year: int, month: int, day: int, micros: int)

  datatype Month = Month(year: int, number: int)

  predicate IsLeap(year: int) {
    year % 4 == 0 && (year % 100 != 0 || year % 400 == 0)
  }

  /** `calendar.monthrange(year, month)[1]`. */
  function LastDay(m: Month): (d: int)
    ensures 28 <= d <= 31
  {
    if m.number == 2 then (if IsLeap(m.year) then 29 else 28)
    else if m.number in {4, 6, 9, 11} then 30
    else 31
  }

  predicate Valid(t: Instant) {
    && MIN_YEAR <= t.year <= MAX_YEAR
    && 1 <= t.month <= 12
    && 1 <= t.day <= LastDay(MonthOf(t))
    && 0 <= t.micros < MICROS_PER_DAY
  }

  /** `a <= b` on two UTC datetimes: the fields are compared from the year down. */
  predicate AtOrBefore(a: Instant, b: Instant) {
    if a.year != b.year then a.year < b.year
    else if a.month != b.month then a.month < b.month
    else if a.day != b.day then a.day < b.day
    else a.micros <= b.micros
  }

  // Months.

  function MonthOf(t: Instant): Month {
    Month(t.year, t.month)
  }

  predicate IsMonth(m: Month) {
    1 <= m.number <= 12
  }

  predicate MonthBefore(a: Month, b: Month) {
    a.year < b.year || (a.year == b.year && a.number < b.number)
  }

  function Next(m: Month): Month {
    if m.number == 12 then Month(m.year + 1, 1) else Month(m.year, m.number + 1)
  }

  function Prev(m: Month): Month {
    if m.number == 1 then Month(m.year - 1, 12) else Month(m.year, m.number - 1)
  }

  /** The number of the month's first day: 1 January of year 1 is day 1, as in `date.toordinal`. */
  function FirstDayNumber(m: Month): int
    requires IsMonth(m)
    decreases if m.year < 1 then 0 else m.year, m.number
  {
    if m.year < 1 then 1
    else if m == Month(1, 1) then 1
    else FirstDayNumber(Prev(m)) + LastDay(Prev(m))
  }

  /** The position of an instant on the timeline, in microseconds. */
  function Micros(t: Instant): int
    requires IsMonth(MonthOf(t))
  {
    (FirstDayNumber(MonthOf(t)) + t.day - 1) * MICROS_PER_DAY + t.micros
  }

  const DAYS_BEFORE_MONTH := [0, 31, 59, 90, 120, 151, 181, 212, 243, 273, 304, 334]

  /** The ordinal of a month's first day as `date.toordinal` has it: the days of the years before, by the leap rule, and of the months before. */
  function Ordinal(m: Month): int
    requires IsMonth(m) && m.year >= 1
  {
    var y := m.year - 1;
    365 * y + LeapDaysTo(y) + DAYS_BEFORE_MONTH[m.number - 1] + (if m.number > 2 && IsLeap(m.year) then 1 else 0) + 1
  }

  function LeapDaysTo(year: nat): int {
    year / 4 - year / 100 + year / 400
  }

  lemma LeapDaysStep(year: nat)
    requires year > 0
    ensures LeapDaysTo(year) == LeapDaysTo(year - 1) + (if IsLeap(year) then 1 else 0)
  {
    assert year / 4 == (year - 1) / 4 + (if year % 4 == 0 then 1 else 0);
    assert year / 100 == (year - 1) / 100 + (if year % 100 == 0 then 1 else 0);
    assert year / 400 == (year - 1) / 400 + (if year % 400 == 0 then 1 else 0);
    assert year % 100 == 0 ==> year % 4 == 0;
    assert year % 400 == 0 ==> year % 100 == 0;
  }

  lemma OrdinalStep(m: Month)
    requires IsMonth(m) && m.year >= 1 && m != Month(1, 1)
    ensures Ordinal(m) == Ordinal(Prev(m)) + LastDay(Prev(m))
  {
    hide LeapDaysTo;
    if m.number == 1 {
      LeapDaysStep(m.year - 1);
    } else {
      hide IsLeap;
    }
  }

  lemma FirstDay()
    ensures Ordinal(Month(1, 1)) == 1
  {
  }

  /** Counting month by month gives that ordinal. */
  lemma {:induction false} FirstDayIsOrdinal(m: Month)
    requires IsMonth(m) && m.year >= 1
    ensures FirstDayNumber(m) == Ordinal(m)
    decreases m.year, m.number
  {
    hide Ordinal, LastDay;
    if m != Month(1, 1) {
      FirstDayIsOrdinal(Prev(m));
      OrdinalStep(m);
    } else {
      FirstDay();
    }
  }

  /** A later month starts no sooner than an earlier one ends. */
  lemma {:induction false} MonthsInOrder(a: Month, b: Month)
    requires IsMonth(a) && IsMonth(b) && 1 <= a.year && MonthBefore(a, b)
    ensures FirstDayNumber(a) + LastDay(a) <= FirstDayNumber(b)
    decreases b.year, b.number
  {
    if a != Prev(b) {
      MonthsInOrder(a, Prev(b));
    }
  }

  lemma EarlierIsBelow(a: Instant, b: Instant)
    requires Valid(a) && Valid(b) && AtOrBefore(a, b) && a != b
    ensures Micros(a) < Micros(b)
  {
    if MonthOf(a) != MonthOf(b) {
      MonthsInOrder(MonthOf(a), MonthOf(b));
    }
  }

  /** Comparing datetimes field by field is comparing positions on the timeline. */
  lemma ComparisonIsTimeline(a: Instant, b: Instant)
    requires Valid(a) && Valid(b)
    ensures AtOrBefore(a, b) <==> Micros(a) <= Micros(b)
    ensures Micros(a) == Micros(b) <==> a == b
  {
    if a != b {
      if AtOrBefore(a, b) {
        EarlierIsBelow(a, b);
      } else {
        EarlierIsBelow(b, a);
      }
    }
  }

  // The datetime at a position on the timeline.

  datatype Date = Date(month: Month, day: int)

  predicate ValidDate(d: Date) {
    d.month.year >= 1 && IsMonth(d.month) && 1 <= d.day <= LastDay(d.month)
  }

  function DayNumber(d: Date): int
    requires ValidDate(d)
  {
    FirstDayNumber(d.month) + d.day - 1
  }

  function DateOf(dayNumber: nat): (d: Date)
    requires dayNumber >= 1
    ensures ValidDate(d) && DayNumber(d) == dayNumber
  {
    if dayNumber == 1 then Date(Month(1, 1), 1)
    else
      var d := DateOf(dayNumber - 1);
      if d.day < LastDay(d.month) then d.(day := d.day + 1)
      else
        assert Prev(Next(d.month)) == d.month;
        Date(Next(d.month), 1)
  }

  /** `Valid` says whether Python can represent the result. */
  function InstantAt(micros: int): (t: Instant)
    ensures Valid(t) ==> Micros(t) == micros
  {
    var dayNumber, rest := micros / MICROS_PER_DAY, micros % MICROS_PER_DAY;
    if dayNumber >= 1 then
      var d := DateOf(dayNumber);
      Instant(d.month.year, d.month.number, d.day, rest)
    else Instant(0, 1, 1, rest)
  }

  lemma {:induction false} DayNumberPositive(m: Month)
    requires IsMonth(m)
    ensures FirstDayNumber(m) >= 1
    decreases if m.year < 1 then 0 else m.year, m.number
  {
    if m.year >= 1 && m != Month(1, 1) {
      DayNumberPositive(Prev(m));
    }
  }

  lemma TimelineInverse(t: Instant)
    requires Valid(t)
    ensures InstantAt(Micros(t)) == t
  {
    DayNumberPositive(MonthOf(t));
    var n := FirstDayNumber(MonthOf(t)) + t.day - 1;
    assert Micros(t) / MICROS_PER_DAY == n && Micros(t) % MICROS_PER_DAY == t.micros;
    var d := DateOf(n);
    if MonthBefore(d.month, MonthOf(t)) {
      MonthsInOrder(d.month, MonthOf(t));
    } else if MonthBefore(MonthOf(t), d.month) {
      MonthsInOrder(MonthOf(t), d.month);
    }
  }
}
