/** The proleptic Gregorian calendar, as Go's time package counts it; day 0 is January 1 of year 0. */
module Calendar {

  const EPOCH_DAY: int := 719_528
  const ERA_DAYS: int := 146_097

  predicate Leap(y: int) {
    y % 4 == 0 && (y % 100 != 0 || y % 400 == 0)
  }

  function DaysInYear(y: int): int {
    if Leap(y) then 366 else 365
  }

  function DaysInMonth(leap: bool, m: int): int {
    if m == 2 then (if leap then 29 else 28) else if m == 4 || m == 6 || m == 9 || m == 11 then 30 else 31
  }

  /** Days from the start of year 0 to the start of year `y`. */
  function DaysBeforeYear(y: nat): nat {
    if y == 0 then 0 else DaysBeforeYear(y - 1) + DaysInYear(y - 1)
  }

  function YearLength(leap: bool): nat {
    if leap then 366 else 365
  }

  /** Days from the start of the month to the end of the year. */
  function DaysFromMonth(leap: bool, m: int): nat
    requires 1 <= m <= 12
    decreases 12 - m
  {
    DaysInMonth(leap, m) + if m == 12 then 0 else DaysFromMonth(leap, m + 1)
  }

  function DaysBeforeMonth(leap: bool, m: int): int
    requires 1 <= m <= 12
  {
    YearLength(leap) - DaysFromMonth(leap, m)
  }

  lemma MonthsFillYear(leap: bool)
    ensures DaysFromMonth(leap, 1) == YearLength(leap)
  {
    assert DaysFromMonth(leap, 11) == 61;
    assert DaysFromMonth(leap, 9) == 122;
    assert DaysFromMonth(leap, 7) == 184;
    assert DaysFromMonth(leap, 5) == 245;
    assert DaysFromMonth(leap, 3) == 306;
  }

  datatype Date = Date(year: int, month: int, day: int)

  predicate ValidDate(d: Date) {
    1 <= d.month <= 12 && 1 <= d.day <= DaysInMonth(Leap(d.year), d.month)
  }

  function DayNumber(d: Date): int
    requires ValidDate(d)
  {
    d.year / 400 * ERA_DAYS + DaysBeforeYear(d.year % 400) + DaysBeforeMonth(Leap(d.year), d.month) + d.day - 1
  }

  /** The year, counted from `y`, in which the `r`-th day falls, and the day's index in it. */
  function SplitYear(r: nat, y: nat): (nat, nat)
    decreases r
  {
    if r < DaysInYear(y) then (y, r) else SplitYear(r - DaysInYear(y), y + 1)
  }

  function SplitMonth(leap: bool, r: nat, m: int): (int, int)
    requires 1 <= m <= 12
    decreases 12 - m
  {
    if r < DaysInMonth(leap, m) || m == 12 then (m, r + 1) else SplitMonth(leap, r - DaysInMonth(leap, m), m + 1)
  }

  function DateOf(day: int): Date {
    var (y, r) := SplitYear(day % ERA_DAYS, 0);
    var (m, d) := SplitMonth(Leap(y), r, 1);
    Date(day / ERA_DAYS * 400 + y, m, d)
  }

  lemma {:induction false} SplitYearCorrect(r: nat, y: nat)
    ensures var (z, q) := SplitYear(r, y); y <= z && q < DaysInYear(z) && DaysBeforeYear(y) + r == DaysBeforeYear(z) + q
    decreases r
  {
    if r >= DaysInYear(y) { SplitYearCorrect(r - DaysInYear(y), y + 1); }
  }

  function Bit(b: bool): int {
    if b then 1 else 0
  }

  lemma QuotientStep4(y: nat)
    ensures (y + 4) / 4 == (y + 3) / 4 + Bit(y % 4 == 0)
  {
  }

  lemma QuotientStep100(y: nat)
    ensures (y + 100) / 100 == (y + 99) / 100 + Bit(y % 100 == 0)
  {
  }

  lemma QuotientStep400(y: nat)
    ensures (y + 400) / 400 == (y + 399) / 400 + Bit(y % 400 == 0)
  {
  }

  lemma LeapBits(y: nat)
    ensures DaysInYear(y) == 365 + Bit(y % 4 == 0) - Bit(y % 100 == 0) + Bit(y % 400 == 0)
  {
    MultipleOf4(25 * (y / 100));
    MultipleOf100(4 * (y / 400));
  }

  lemma MultipleOf4(m: nat)
    ensures (4 * m) % 4 == 0
  {
  }

  lemma MultipleOf100(m: nat)
    ensures (100 * m) % 100 == 0
  {
  }

  lemma {:induction false} YearsClosedForm(y: nat)
    ensures DaysBeforeYear(y) == 365 * y + (y + 3) / 4 - (y + 99) / 100 + (y + 399) / 400
  {
    if y > 0 {
      YearsClosedForm(y - 1);
      ClosedFormStep(y - 1);
    }
  }

  lemma ClosedFormStep(y: nat)
    ensures 365 * (y + 1) + (y + 4) / 4 - (y + 100) / 100 + (y + 400) / 400 ==
            365 * y + (y + 3) / 4 - (y + 99) / 100 + (y + 399) / 400 + DaysInYear(y)
  {
    QuotientStep4(y);
    QuotientStep100(y);
    QuotientStep400(y);
    LeapBits(y);
  }

  lemma {:induction false} YearsMonotone(y: nat, z: nat)
    requires y <= z
    ensures DaysBeforeYear(y) <= DaysBeforeYear(z)
  {
    if y < z { YearsMonotone(y, z - 1); }
  }

  lemma {:induction false} SplitMonthCorrect(leap: bool, r: nat, m: int)
    requires 1 <= m <= 12 && r < DaysFromMonth(leap, m)
    ensures var (k, d) := SplitMonth(leap, r, m);
            && m <= k <= 12 && 1 <= d <= DaysInMonth(leap, k)
            && r - DaysFromMonth(leap, m) == d - 1 - DaysFromMonth(leap, k)
    decreases 12 - m
  {
    if r >= DaysInMonth(leap, m) {
      SplitMonthCorrect(leap, r - DaysInMonth(leap, m), m + 1);
    }
  }

  /** Every day has a valid date, and the date names the day. */
  lemma DateRoundTrip(day: int)
    ensures ValidDate(DateOf(day)) && DayNumber(DateOf(day)) == day
  {
    var era, r := day / ERA_DAYS, day % ERA_DAYS;
    var (y, q) := SplitYear(r, 0);
    SplitYearCorrect(r, 0);
    EraIs400Years();
    if y >= 400 { YearsMonotone(400, y); }
    MonthsFillYear(Leap(y));
    SplitMonthCorrect(Leap(y), q, 1);
    EraYear(era, y);
    assert DateOf(day).year == era * 400 + y;
  }

  lemma EraIs400Years()
    ensures DaysBeforeYear(400) == ERA_DAYS
  {
    YearsClosedForm(400);
  }

  lemma EraYear(era: int, y: nat)
    requires y < 400
    ensures (era * 400 + y) / 400 == era && (era * 400 + y) % 400 == y
    ensures Leap(era * 400 + y) == Leap(y)
  {
    Remainder400(era, y);
    Remainder100(4 * era, y);
    Remainder4(100 * era, y);
  }

  lemma Remainder400(k: int, y: nat)
    requires y < 400
    ensures (k * 400 + y) / 400 == k && (k * 400 + y) % 400 == y
  {
  }

  lemma Remainder100(k: int, y: nat)
    ensures (k * 100 + y) % 100 == y % 100
  {
  }

  lemma Remainder4(k: int, y: nat)
    ensures (k * 4 + y) % 4 == y % 4
  {
  }

  // ---- the calendar in plain words: anchors and successors

  /** Days of the 400-year era before the date. */
  function EraOffset(d: Date): int
    requires ValidDate(d)
  {
    DaysBeforeYear(d.year % 400) + DaysBeforeMonth(Leap(d.year), d.month) + d.day - 1
  }

  lemma LeapPeriod(y: int)
    ensures Leap(y) == Leap(y % 400) && DaysInYear(y % 400) == YearLength(Leap(y))
  {
    EraYear(y / 400, y % 400);
    assert y == y / 400 * 400 + y % 400;
  }

  lemma {:induction false} MonthsOrdered(leap: bool, m: int, k: int)
    requires 1 <= m <= k <= 12
    ensures DaysFromMonth(leap, k) <= DaysFromMonth(leap, m) <= YearLength(leap)
    ensures m < k ==> DaysFromMonth(leap, k) + DaysInMonth(leap, m) <= DaysFromMonth(leap, m)
    decreases k - m, m
  {
    if m < k { MonthsOrdered(leap, m + 1, k); }
    if m > 1 { MonthsWithin(leap, m); } else { MonthsFillYear(leap); }
  }

  lemma {:induction false} MonthsWithin(leap: bool, m: int)
    requires 1 <= m <= 12
    ensures DaysFromMonth(leap, m) <= YearLength(leap)
    decreases m
  {
    if m == 1 { MonthsFillYear(leap); } else { MonthsWithin(leap, m - 1); }
  }

  lemma OffsetBounds(d: Date)
    requires ValidDate(d)
    ensures var z := d.year % 400; DaysBeforeYear(z) <= EraOffset(d) < DaysBeforeYear(z + 1) <= ERA_DAYS
  {
    var z := d.year % 400;
    LeapPeriod(d.year);
    MonthsWithin(Leap(d.year), d.month);
    EraIs400Years();
    YearsMonotone(z + 1, 400);
  }

  lemma QuotientUnique(a: int, x: int, b: int, y: int)
    requires 0 <= x < ERA_DAYS && 0 <= y < ERA_DAYS && a * ERA_DAYS + x == b * ERA_DAYS + y
    ensures a == b && x == y
  {
  }

  /** A day number belongs to one valid date. */
  lemma DateUnique(d: Date, e: Date)
    requires ValidDate(d) && ValidDate(e) && DayNumber(d) == DayNumber(e)
    ensures d == e
  {
    OffsetBounds(d);
    OffsetBounds(e);
    QuotientUnique(d.year / 400, EraOffset(d), e.year / 400, EraOffset(e));
    var y, z := d.year % 400, e.year % 400;
    if y < z { YearsMonotone(y + 1, z); } else if z < y { YearsMonotone(z + 1, y); }
    assert d.year == e.year by { assert d.year == d.year / 400 * 400 + y && e.year == e.year / 400 * 400 + z; }
    if d.month < e.month {
      MonthsOrdered(Leap(d.year), d.month, e.month);
    } else if e.month < d.month {
      MonthsOrdered(Leap(d.year), e.month, d.month);
    }
  }

  lemma NewYear(y: int)
    ensures ValidDate(Date(y, 12, 31)) && ValidDate(Date(y + 1, 1, 1))
    ensures DayNumber(Date(y + 1, 1, 1)) == DayNumber(Date(y, 12, 31)) + 1
  {
    LeapPeriod(y);
    MonthsFillYear(Leap(y + 1));
    assert DaysFromMonth(Leap(y), 12) == 31;
    EraIs400Years();
    if y % 400 == 399 {
      assert (y + 1) / 400 == y / 400 + 1 && (y + 1) % 400 == 0;
    } else {
      assert (y + 1) / 400 == y / 400 && (y + 1) % 400 == y % 400 + 1;
    }
  }

  function Next(d: Date): Date {
    if d.day < DaysInMonth(Leap(d.year), d.month) then Date(d.year, d.month, d.day + 1)
    else if d.month < 12 then Date(d.year, d.month + 1, 1)
    else Date(d.year + 1, 1, 1)
  }

  lemma NextNumber(d: Date)
    requires ValidDate(d)
    ensures ValidDate(Next(d)) && DayNumber(Next(d)) == DayNumber(d) + 1
  {
    if d.day == DaysInMonth(Leap(d.year), d.month) {
      if d.month < 12 { NewMonth(d.year, d.month); } else { NewYear(d.year); }
    }
  }

  /** The day after: the next day of the month, else the first of the next month, else January 1. */
  lemma NextDay(day: int, d: Date)
    requires d == DateOf(day)
    ensures var leap := d.year % 4 == 0 && (d.year % 100 != 0 || d.year % 400 == 0);
            var last := if d.month == 2 then (if leap then 29 else 28)
                        else if d.month == 4 || d.month == 6 || d.month == 9 || d.month == 11 then 30 else 31;
            && 1 <= d.month <= 12 && 1 <= d.day <= last
            && DateOf(day + 1) == if d.day < last then Date(d.year, d.month, d.day + 1)
                                  else if d.month < 12 then Date(d.year, d.month + 1, 1)
                                  else Date(d.year + 1, 1, 1)
  {
    DateRoundTrip(day);
    NextNumber(d);
    DateIs(day + 1, Next(d));
  }

  lemma NewMonth(y: int, m: int)
    requires 1 <= m < 12
    ensures var last := Date(y, m, DaysInMonth(Leap(y), m));
            ValidDate(last) && ValidDate(Date(y, m + 1, 1)) && DayNumber(Date(y, m + 1, 1)) == DayNumber(last) + 1
  {
  }

  lemma DateIs(day: int, d: Date)
    requires ValidDate(d) && DayNumber(d) == day
    ensures DateOf(day) == d
  {
    DateRoundTrip(day);
    DateUnique(DateOf(day), d);
  }
}
