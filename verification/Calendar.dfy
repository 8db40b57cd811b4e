/**
 Grant expiry arithmetic: `compute_expiry` and the calendar it rests on.

 Month lengths are those of section 5.7 of RFC 3339 and leap years those of its Appendix C.
 `Ordinal` counts days, so that "later" and "how many days later" are plain integer facts.
 */
module Calendar {
  import opened Outcomes

  // ---------------------------------------------------------------- dates and day numbers

  predicate IsLeapYear(year: int) {
    year % 4 == 0 && (year % 100 == 0 ==> year % 400 == 0)
  }

  function DaysInMonth(year: int, month: int): int {
    if month == 2 then (if IsLeapYear(year) then 29 else 28)
    else if month == 4 || month == 6 || month == 9 || month == 11 then 30
    else 31
  }

  datatype Date = Date(year: int, month: int, day: int) {
    predicate Valid() {
      1 <= year && 1 <= month <= 12 && 1 <= day <= DaysInMonth(year, month)
    }

    function Tomorrow(): (r: Date)
      requires Valid()
      ensures r.Valid()
    {
      if day < DaysInMonth(year, month) then Date(year, month, day + 1)
      else if month < 12 then Date(year, month + 1, 1)
      else Date(year + 1, 1, 1)
    }

    predicate Before(that: Date) {
      year < that.year || (year == that.year && (month < that.month || (month == that.month && day < that.day)))
    }
  }

  function DaysBeforeYear(year: int): int {
    if year <= 1 then 0 else DaysBeforeYear(year - 1) + (if IsLeapYear(year - 1) then 366 else 365)
  }

  function DaysBeforeMonth(year: int, month: int): int
    requires 1 <= month <= 13
  {
    if month == 1 then 0 else DaysBeforeMonth(year, month - 1) + DaysInMonth(year, month - 1)
  }

  function Ordinal(d: Date): int
    requires d.Valid()
  {
    DaysBeforeYear(d.year) + DaysBeforeMonth(d.year, d.month) + d.day
  }

  /** The lengths of section 5.7, month by month. */
  lemma MonthLengths(year: int)
    ensures [DaysInMonth(year, 1), DaysInMonth(year, 2), DaysInMonth(year, 3), DaysInMonth(year, 4),
             DaysInMonth(year, 5), DaysInMonth(year, 6), DaysInMonth(year, 7), DaysInMonth(year, 8),
             DaysInMonth(year, 9), DaysInMonth(year, 10), DaysInMonth(year, 11), DaysInMonth(year, 12)]
         == [31, if IsLeapYear(year) then 29 else 28, 31, 30, 31, 30, 31, 31, 30, 31, 30, 31]
  {
  }

  /** Four Gregorian centuries in closed form: a leap day every 4 years, but for the centuries not divisible by 400. */
  lemma {:induction false} GregorianDays(year: int)
    requires year >= 1
    ensures DaysBeforeYear(year) == 365 * (year - 1) + (year - 1) / 4 - (year - 1) / 100 + (year - 1) / 400
    decreases year
  {
    if year > 1 {
      GregorianDays(year - 1);
      LeapDays(year - 1);
    }
  }

  lemma LeapDays(y: int)
    requires y >= 1
    ensures y / 4 - y / 100 + y / 400 == (y - 1) / 4 - (y - 1) / 100 + (y - 1) / 400 + if IsLeapYear(y) then 1 else 0
  {
    OneMoreMultiple(y, 4);
    OneMoreMultiple(y, 100);
    OneMoreMultiple(y, 400);
    assert y % 400 == 0 ==> y % 100 == 0 by { Multiples(y, 100, 4); }
    assert y % 100 == 0 ==> y % 4 == 0 by { Multiples(y, 4, 25); }
  }

  lemma OneMoreMultiple(y: int, n: int)
    requires y >= 1 && n >= 1
    ensures y / n == (y - 1) / n + if y % n == 0 then 1 else 0
  {
    var q, r := (y - 1) / n, (y - 1) % n;
    assert y - 1 == n * q + r;
    if r == n - 1 {
      assert y == n * (q + 1);
      Quotient(y, n, q + 1, 0);
    } else {
      Quotient(y, n, q, r + 1);
    }
  }

  lemma Quotient(y: int, n: int, q: int, r: int)
    requires n >= 1 && y == n * q + r && 0 <= r < n
    ensures y / n == q && y % n == r
  {
    SameQuotient(n, y / n, y % n, q, r);
  }

  lemma SameQuotient(n: int, p: int, s: int, q: int, r: int)
    requires n >= 1 && n * p + s == n * q + r && 0 <= s < n && 0 <= r < n
    ensures p == q && s == r
  {
    if p > q { AtLeastOnce(n, p, q); }
    if q > p { AtLeastOnce(n, q, p); }
  }

  lemma AtLeastOnce(n: int, p: int, q: int)
    requires n >= 1 && p > q
    ensures n * p >= n * q + n
  {
    Distributes(n, q, p - q);
    NotLess(n, p - q);
  }

  lemma Distributes(n: int, q: int, d: int)
    ensures n * (q + d) == n * q + n * d
  {
  }

  lemma NotLess(n: int, d: int)
    requires n >= 1 && d >= 1
    ensures n * d >= n
  {
  }

  lemma Multiples(y: int, n: int, k: int)
    requires y >= 0 && n >= 1 && k >= 1
    ensures y % (n * k) == 0 ==> y % n == 0
  {
    if y % (n * k) == 0 {
      var q := y / (n * k);
      assert y == n * k * q;
      assert n * k * q == n * (k * q);
      Quotient(y, n, k * q, 0);
    }
  }

  lemma MonthsFillTheYear(year: int)
    ensures DaysBeforeMonth(year, 13) == if IsLeapYear(year) then 366 else 365
  {
    assert DaysBeforeMonth(year, 2) == 31;
    assert DaysBeforeMonth(year, 3) == 31 + DaysInMonth(year, 2);
    assert DaysBeforeMonth(year, 5) == DaysBeforeMonth(year, 3) + 61;
    assert DaysBeforeMonth(year, 7) == DaysBeforeMonth(year, 5) + 61;
    assert DaysBeforeMonth(year, 9) == DaysBeforeMonth(year, 7) + 62;
    assert DaysBeforeMonth(year, 11) == DaysBeforeMonth(year, 9) + 61;
  }

  lemma {:induction false} YearsGrow(y1: int, y2: int)
    requires 1 <= y1 < y2
    ensures DaysBeforeYear(y1) + DaysBeforeMonth(y1, 13) <= DaysBeforeYear(y2)
    decreases y2
  {
    MonthsFillTheYear(y1);
    if y1 + 1 < y2 {
      YearsGrow(y1, y2 - 1);
    }
  }

  lemma {:induction false} MonthsGrow(year: int, m1: int, m2: int)
    requires 1 <= m1 < m2 <= 13
    ensures DaysBeforeMonth(year, m1) + DaysInMonth(year, m1) <= DaysBeforeMonth(year, m2)
    decreases m2
  {
    if m1 + 1 < m2 {
      MonthsGrow(year, m1, m2 - 1);
    }
  }

  lemma BeforeCountsFewerDays(a: Date, b: Date)
    requires a.Valid() && b.Valid() && a.Before(b)
    ensures Ordinal(a) < Ordinal(b)
  {
    if a.year < b.year {
      YearsGrow(a.year, b.year);
      if a.month < 13 { MonthsGrow(a.year, a.month, 13); }
      if 1 < b.month { MonthsGrow(b.year, 1, b.month); }
    } else if a.month < b.month {
      MonthsGrow(a.year, a.month, b.month);
    }
  }

  /** Calendar order and day-number order are the same order. */
  lemma OrdinalIsChronological(a: Date, b: Date)
    requires a.Valid() && b.Valid()
    ensures a.Before(b) <==> Ordinal(a) < Ordinal(b)
    ensures a == b <==> Ordinal(a) == Ordinal(b)
  {
    if a.Before(b) {
      BeforeCountsFewerDays(a, b);
    } else if b.Before(a) {
      BeforeCountsFewerDays(b, a);
    }
  }

  // ---------------------------------------------------------------- relative dates

  function AddDays(d: Date, n: nat): (r: Date)
    requires d.Valid()
    ensures r.Valid()
    decreases n
  {
    if n == 0 then d else AddDays(d, n - 1).Tomorrow()
  }

  lemma {:induction false} AddDaysCounts(d: Date, n: nat)
    requires d.Valid()
    ensures Ordinal(AddDays(d, n)) == Ordinal(d) + n
    decreases n
  {
    if n > 0 {
      AddDaysCounts(d, n - 1);
      MonthsFillTheYear(AddDays(d, n - 1).year);
    }
  }

  /**
   What `relativedelta(years=years, months=months)` does to a date: carry at most one year out of the
   month, then clamp the day to the length of the month it lands in.
   */
  function Shift(d: Date, years: nat, months: nat): (r: Date)
    requires d.Valid() && months < 12
    ensures r.Valid()
  {
    var carry := d.month + months > 12;
    var year := d.year + years + (if carry then 1 else 0);
    var month := d.month + months - (if carry then 12 else 0);
    Date(year, month, Min(d.day, DaysInMonth(year, month)))
  }

  datatype Month = Month(year: int, month: int) {
    predicate Valid() {
      1 <= year && 1 <= month <= 12
    }

    function Next(): Month {
      if month < 12 then Month(year, month + 1) else Month(year + 1, 1)
    }

    function Index(): int {
      12 * year + month
    }

    function Length(): int {
      DaysInMonth(year, month)
    }
  }

  function MonthOf(d: Date): Month {
    Month(d.year, d.month)
  }

  /** The month reached by turning `k` calendar pages. */
  function MonthsOn(m: Month, k: nat): (r: Month)
    requires m.Valid()
    ensures r.Valid() && r.Index() == m.Index() + k
    decreases k
  {
    if k == 0 then m else MonthsOn(m, k - 1).Next()
  }

  /** The reference meaning of a month shift: the same day `k` pages on, or that month's last day. */
  function AddMonths(d: Date, k: nat): (r: Date)
    requires d.Valid()
    ensures r.Valid()
  {
    var m := MonthsOn(MonthOf(d), k);
    Date(m.year, m.month, Min(d.day, m.Length()))
  }

  lemma {:induction false} MonthsOnSplits(m: Month, a: nat, b: nat)
    requires m.Valid()
    ensures MonthsOn(MonthsOn(m, a), b) == MonthsOn(m, a + b)
    decreases b
  {
    if b > 0 { MonthsOnSplits(m, a, b - 1); }
  }

  lemma IndexDetermines(a: Month, b: Month)
    requires a.Valid() && b.Valid() && a.Index() == b.Index()
    ensures a == b
  {
  }

  lemma ShiftIsAddMonths(d: Date, years: nat, months: nat)
    requires d.Valid() && months < 12
    ensures Shift(d, years, months) == AddMonths(d, 12 * years + months)
  {
    IndexDetermines(MonthOf(Shift(d, years, months)), MonthsOn(MonthOf(d), 12 * years + months));
  }

  lemma AddMonthsMonotone(a: Date, b: Date, k: nat)
    requires a.Valid() && b.Valid() && !b.Before(a)
    ensures !AddMonths(b, k).Before(AddMonths(a, k))
  {
    if MonthOf(a) != MonthOf(b) {
      assert MonthsOn(MonthOf(a), k).Index() < MonthsOn(MonthOf(b), k).Index();
    }
  }

  /** Splitting a shift can only lose days, and loses none exactly when the clamp at the half-way month is harmless. */
  lemma SplitMonths(d: Date, a: nat, b: nat)
    requires d.Valid()
    ensures !AddMonths(d, a + b).Before(AddMonths(AddMonths(d, a), b))
    ensures AddMonths(AddMonths(d, a), b) == AddMonths(d, a + b)
            <==> Min(d.day, MonthsOn(MonthOf(d), a + b).Length()) <= MonthsOn(MonthOf(d), a).Length()
  {
    MonthsOnSplits(MonthOf(d), a, b);
    assert MonthOf(AddMonths(d, a)) == MonthsOn(MonthOf(d), a);
  }

  lemma NextMonthOrdinal(m: Month)
    requires m.Valid()
    ensures Ordinal(Date(m.Next().year, m.Next().month, 1)) == Ordinal(Date(m.year, m.month, 1)) + m.Length()
  {
    if m.month == 12 {
      MonthsFillTheYear(m.year);
    }
  }

  lemma OneMonthSpan(d: Date)
    requires d.Valid()
    ensures 28 <= Ordinal(AddMonths(d, 1)) - Ordinal(d) <= 31
  {
    NextMonthOrdinal(MonthOf(d));
    assert MonthsOn(MonthOf(d), 1) == MonthsOn(MonthOf(d), 0).Next();
  }

  /** The days from the first of a month to the first of the month `k` on. */
  function DaysIn(m: Month, k: nat): int
    requires m.Valid()
  {
    if k == 0 then 0 else DaysIn(m, k - 1) + MonthsOn(m, k - 1).Length()
  }

  lemma {:induction false} FirstOfMonths(m: Month, k: nat)
    requires m.Valid()
    ensures Ordinal(Date(MonthsOn(m, k).year, MonthsOn(m, k).month, 1)) == Ordinal(Date(m.year, m.month, 1)) + DaysIn(m, k)
  {
    if k > 0 {
      FirstOfMonths(m, k - 1);
      NextMonthOrdinal(MonthsOn(m, k - 1));
    }
  }

  /** A shift by months counts their days, less what the clamp takes off. */
  lemma MonthsSpan(d: Date, k: nat)
    requires d.Valid()
    ensures Ordinal(AddMonths(d, k)) - Ordinal(d) == DaysIn(MonthOf(d), k) + Min(d.day, MonthsOn(MonthOf(d), k).Length()) - d.day
  {
    FirstOfMonths(MonthOf(d), k);
  }

  lemma UnrollMonths(m: Month, k: nat)
    requires m.Valid()
    ensures MonthsOn(m, k + 1) == MonthsOn(m, k).Next()
    ensures DaysIn(m, k + 1) == DaysIn(m, k) + MonthsOn(m, k).Length()
  {
  }

  lemma TwoMonthsSpan(d: Date)
    requires d.Valid()
    ensures 59 <= Ordinal(AddMonths(d, 2)) - Ordinal(d) <= 62
  {
    var m := MonthOf(d);
    MonthsSpan(d, 2);
    UnrollMonths(m, 0);
    UnrollMonths(m, 1);
    hide Ordinal, AddMonths, MonthsOn, DaysIn, IsLeapYear;
    assert MonthsOn(m, 0) == m && DaysIn(m, 0) == 0 by { NoMonths(m); }
  }

  lemma NoMonths(m: Month)
    requires m.Valid()
    ensures MonthsOn(m, 0) == m && DaysIn(m, 0) == 0
  {
  }

  lemma SixLengths(m0: Month, m1: Month, m2: Month, m3: Month, m4: Month, m5: Month, m6: Month)
    requires m0.Valid() && m1 == m0.Next() && m2 == m1.Next() && m3 == m2.Next()
    requires m4 == m3.Next() && m5 == m4.Next() && m6 == m5.Next()
    ensures var days := m0.Length() + m1.Length() + m2.Length() + m3.Length() + m4.Length() + m5.Length();
      days <= 184 && 181 <= days && 181 <= days + m6.Length() - m0.Length()
  {
    hide IsLeapYear;
    var n := m0.month;
    assert n == 1 || n == 2 || n == 3 || n == 4 || n == 5 || n == 6 || n == 7 || n == 8 || n == 9 || n == 10 || n == 11 || n == 12;
    if n <= 3 {
    } else if n <= 6 {
    } else if n <= 9 {
    }
  }

  /** Half a year: six lengths, of which at most one is February's. */
  lemma SixMonthsSpan(d: Date)
    requires d.Valid()
    ensures 181 <= Ordinal(AddMonths(d, 6)) - Ordinal(d) <= 184
  {
    hide Ordinal, AddMonths, MonthsOn, DaysIn, DaysInMonth;
    var m := MonthOf(d);
    MonthsSpan(d, 6);
    NoMonths(m);
    UnrollMonths(m, 0);
    UnrollMonths(m, 1);
    UnrollMonths(m, 2);
    UnrollMonths(m, 3);
    UnrollMonths(m, 4);
    UnrollMonths(m, 5);
    SixLengths(m, MonthsOn(m, 1), MonthsOn(m, 2), MonthsOn(m, 3), MonthsOn(m, 4), MonthsOn(m, 5), MonthsOn(m, 6));
  }

  lemma {:induction false} SameMonthNextYear(y: int, m: int)
    requires 1 <= m <= 12
    ensures DaysBeforeMonth(y + 1, m) - DaysBeforeMonth(y, m)
            == if m <= 2 then 0 else DaysInMonth(y + 1, 2) - DaysInMonth(y, 2)
  {
    if m > 1 { SameMonthNextYear(y, m - 1); }
  }

  lemma ShiftOneYearSpan(d: Date)
    requires d.Valid()
    ensures 365 <= Ordinal(Shift(d, 1, 0)) - Ordinal(d) <= 366
  {
    SameMonthNextYear(d.year, d.month);
    assert DaysBeforeYear(d.year + 1) == DaysBeforeYear(d.year) + 337 + DaysInMonth(d.year, 2);
  }

  lemma OneYearSpan(d: Date)
    requires d.Valid()
    ensures 365 <= Ordinal(AddMonths(d, 12)) - Ordinal(d) <= 366
  {
    ShiftIsAddMonths(d, 1, 0);
    ShiftOneYearSpan(d);
  }

  // ---------------------------------------------------------------- compute_expiry

  const MAX_YEAR := 9999
  const MICROSECONDS_PER_DAY := 86_400_000_000

  /** A UTC `datetime`: a date and the microseconds since its midnight. */
  datatype Instant = Instant(date: Date, time: int) {
    predicate Valid() {
      date.Valid() && date.year <= MAX_YEAR && 0 <= time < MICROSECONDS_PER_DAY
    }

    predicate Before(that: Instant) {
      date.Before(that.date) || (date == that.date && time < that.time)
    }
  }

  datatype GrantDuration = FiveDays | TenDays | OneMonth | TwoMonths | SixMonths | OneYear | Custom

  datatype ExpiryError = CustomDateMissing | YearOutOfRange

  /** The `relativedelta` arguments; the months stay below twelve, as `relativedelta` normalises them. */
  datatype RelativeDelta = RelativeDelta(years: nat, months: nat, days: nat)

  function Delta(duration: GrantDuration): (r: RelativeDelta)
    ensures r.months < 12
  {
    match duration
    case FiveDays => RelativeDelta(0, 0, 5)
    case TenDays => RelativeDelta(0, 0, 10)
    case OneMonth => RelativeDelta(0, 1, 0)
    case TwoMonths => RelativeDelta(0, 2, 0)
    case SixMonths => RelativeDelta(0, 6, 0)
    case OneYear => RelativeDelta(1, 0, 0)
    case Custom => RelativeDelta(0, 0, 0)
  }

  /** Months and years first, with the clamp; then the days. */
  function Moved(start: Date, duration: GrantDuration): (r: Date)
    requires start.Valid()
    ensures r.Valid()
  {
    var delta := Delta(duration);
    AddDays(Shift(start, delta.years, delta.months), delta.days)
  }

  /** `compute_expiry`. A `datetime` past year 9999 cannot be represented, so the addition raises. */
  function ComputeExpiry(start: Instant, duration: GrantDuration, custom: Option<Date>): (r: Result<Instant, ExpiryError>)
    requires start.Valid()
    requires custom.Some? ==> Instant(custom.value, 0).Valid()
    ensures r.Ok? ==> r.value.Valid()
  {
    if duration.Custom? then
      if custom.None? then Err(CustomDateMissing) else Ok(Instant(custom.value, 0))
    else
      var moved := Moved(start.date, duration);
      if moved.year <= MAX_YEAR then Ok(Instant(moved, start.time)) else Err(YearOutOfRange)
  }

  /**
   The expiry date, against the reference shift: so many calendar days on, or the same day so many months on,
   clamped to that month's last day.
   */
  lemma ExpiryDate(start: Instant, duration: GrantDuration, custom: Option<Date>)
    requires start.Valid() && (custom.Some? ==> Instant(custom.value, 0).Valid())
    ensures var e := ComputeExpiry(start, duration, custom);
      e.Ok? ==>
        match duration
        case FiveDays => Ordinal(e.value.date) == Ordinal(start.date) + 5
        case TenDays => Ordinal(e.value.date) == Ordinal(start.date) + 10
        case OneMonth => e.value.date == AddMonths(start.date, 1)
        case TwoMonths => e.value.date == AddMonths(start.date, 2)
        case SixMonths => e.value.date == AddMonths(start.date, 6)
        case OneYear => e.value.date == AddMonths(start.date, 12)
        case Custom => custom == Some(e.value.date) && e.value.time == 0
    ensures duration.Custom? ==> (ComputeExpiry(start, duration, custom).Ok? <==> custom.Some?)
  {
    hide Ordinal, AddMonths, Moved;
    MovedByDaysOrMonths(start.date, duration);
  }

  /**
   Every duration but `custom` yields a real date at the same time of day, later than the start by the
   promised number of days; it fails exactly when that date would fall past year 9999.
   */
  lemma ExpiryIsLaterBy(start: Instant, duration: GrantDuration, custom: Option<Date>)
    requires start.Valid() && !duration.Custom?
    requires custom.Some? ==> Instant(custom.value, 0).Valid()
    ensures var e := ComputeExpiry(start, duration, custom);
      && (e.Ok? <==> Moved(start.date, duration).year <= MAX_YEAR)
      && (e.Ok? ==>
        && e.value.Valid() && e.value.time == start.time && start.Before(e.value)
        && var days := Ordinal(e.value.date) - Ordinal(start.date);
        && (duration.FiveDays? ==> days == 5) && (duration.TenDays? ==> days == 10)
        && (duration.OneMonth? ==> 28 <= days <= 31) && (duration.TwoMonths? ==> 59 <= days <= 62)
        && (duration.SixMonths? ==> 181 <= days <= 184) && (duration.OneYear? ==> 365 <= days <= 366))
  {
    hide Ordinal, Moved, AddMonths;
    var d := start.date;
    MovedByDaysOrMonths(d, duration);
    OneMonthSpan(d);
    TwoMonthsSpan(d);
    SixMonthsSpan(d);
    OneYearSpan(d);
    MovedIsLater(d, duration);
  }

  function MonthsOf(duration: GrantDuration): nat {
    12 * Delta(duration).years + Delta(duration).months
  }

  lemma NoShift(d: Date)
    requires d.Valid()
    ensures Shift(d, 0, 0) == d
  {
  }

  /** Each duration is a pure count of days or a pure count of months. */
  lemma MovedByDaysOrMonths(d: Date, duration: GrantDuration)
    requires d.Valid()
    ensures MonthsOf(duration) == 0 ==> Ordinal(Moved(d, duration)) == Ordinal(d) + Delta(duration).days
    ensures MonthsOf(duration) > 0 ==> Moved(d, duration) == AddMonths(d, MonthsOf(duration))
  {
    hide Ordinal, DaysInMonth, AddMonths;
    var delta := Delta(duration);
    ShiftIsAddMonths(d, delta.years, delta.months);
    if MonthsOf(duration) == 0 {
      assert Shift(d, 0, 0) == d by { NoShift(d); }
      AddDaysCounts(d, delta.days);
    } else {
      assert AddDays(Shift(d, delta.years, delta.months), 0) == Shift(d, delta.years, delta.months);
    }
  }

  lemma MovedIsLater(d: Date, duration: GrantDuration)
    requires d.Valid() && !duration.Custom?
    ensures d.Before(Moved(d, duration))
  {
    MovedByDaysOrMonths(d, duration);
    if MonthsOf(duration) == 0 {
      OrdinalIsChronological(d, Moved(d, duration));
    } else {
      assert MonthOf(d).Index() < MonthsOn(MonthOf(d), MonthsOf(duration)).Index();
    }
  }

  lemma MovedMonotone(a: Date, b: Date, duration: GrantDuration)
    requires a.Valid() && b.Valid() && !b.Before(a)
    ensures !Moved(b, duration).Before(Moved(a, duration))
  {
    MovedByDaysOrMonths(a, duration);
    MovedByDaysOrMonths(b, duration);
    if MonthsOf(duration) == 0 {
      OrdinalIsChronological(b, a);
      OrdinalIsChronological(Moved(b, duration), Moved(a, duration));
    } else {
      AddMonthsMonotone(a, b, MonthsOf(duration));
    }
  }

  /** Two dates of one month that a month-counting duration clamps onto the same last day. */
  predicate Clamped(a: Date, b: Date, duration: GrantDuration)
    requires a.Valid() && b.Valid()
  {
    var months := MonthsOf(duration);
    && months > 0 && MonthOf(a) == MonthOf(b)
    && MonthsOn(MonthOf(a), months).Length() <= Min(a.day, b.day)
  }

  lemma ClampedTogether(a: Date, b: Date, k: nat)
    requires a.Valid() && b.Valid() && a != b
    ensures AddMonths(a, k) == AddMonths(b, k)
            <==> MonthOf(a) == MonthOf(b) && MonthsOn(MonthOf(a), k).Length() <= Min(a.day, b.day)
  {
    hide MonthsOn, DaysInMonth;
    assert MonthsOn(MonthOf(a), k).Index() == MonthsOn(MonthOf(b), k).Index() <==> MonthOf(a) == MonthOf(b);
  }

  lemma MovedTogether(a: Date, b: Date, duration: GrantDuration)
    requires a.Valid() && b.Valid() && a != b
    ensures Moved(a, duration) == Moved(b, duration) <==> Clamped(a, b, duration)
  {
    MovedByDaysOrMonths(a, duration);
    MovedByDaysOrMonths(b, duration);
    if MonthsOf(duration) == 0 {
      OrdinalIsChronological(a, b);
    } else {
      ClampedTogether(a, b, MonthsOf(duration));
    }
  }

  /**
   A later start never gives an earlier expiry date. To the instant, it gives an earlier expiry exactly
   when the two starts are clamped onto one day and the later start has the earlier time of day.
   */
  lemma ExpiryMonotone(a: Instant, b: Instant, duration: GrantDuration)
    requires a.Valid() && b.Valid() && !b.Before(a) && !duration.Custom?
    ensures var ea, eb := ComputeExpiry(a, duration, None), ComputeExpiry(b, duration, None);
      eb.Ok? ==>
        && ea.Ok? && !eb.value.date.Before(ea.value.date)
        && (eb.value.Before(ea.value) <==> Clamped(a.date, b.date, duration) && b.time < a.time)
  {
    MovedMonotone(a.date, b.date, duration);
    if a.date != b.date {
      MovedTogether(a.date, b.date, duration);
    } else {
      assert !(b.time < a.time);
    }
  }

  /** 31 January, early morning, is later than 29 January, late evening, and expires a month on before it. */
  lemma ExpiryNotMonotoneToTheInstant()
    ensures var a, b := Instant(Date(2025, 1, 29), 23 * 3_600_000_000), Instant(Date(2025, 1, 31), 3_600_000_000);
      && a.Before(b)
      && ComputeExpiry(b, OneMonth, None).value.Before(ComputeExpiry(a, OneMonth, None).value)
  {
  }

  // ---------------------------------------------------------------- runs of extensions

  /** `extend_grant` again and again: each call starts from the expiry the one before it stored. */
  function ExtendAll(start: Instant, durations: seq<GrantDuration>): (r: Result<Instant, ExpiryError>)
    requires start.Valid()
    ensures r.Ok? ==> r.value.Valid()
  {
    if durations == [] then Ok(start)
    else
      var before := ExtendAll(start, durations[..|durations| - 1]);
      if before.Err? then before else ComputeExpiry(before.value, durations[|durations| - 1], None)
  }

  /** Non-custom extensions only ever postpone a grant's expiry. */
  lemma {:induction false} ExtensionsPostpone(start: Instant, durations: seq<GrantDuration>)
    requires start.Valid() && durations != []
    requires forall i :: 0 <= i < |durations| ==> !durations[i].Custom?
    ensures ExtendAll(start, durations).Ok? ==> start.Before(ExtendAll(start, durations).value)
  {
    var most := durations[..|durations| - 1];
    var before := ExtendAll(start, most);
    if before.Ok? {
      if most != [] { ExtensionsPostpone(start, most); }
      MovedIsLater(before.value.date, durations[|durations| - 1]);
    }
  }

  lemma AddMonthsZero(d: Date)
    requires d.Valid()
    ensures AddMonths(d, 0) == d
  {
  }

  lemma OneMoreMonth(start: Date, d: Date, k: nat)
    requires start.Valid() && d.Valid() && !AddMonths(start, k).Before(d)
    ensures !AddMonths(start, k + 1).Before(Moved(d, OneMonth))
  {
    MovedByDaysOrMonths(d, OneMonth);
    AddMonthsMonotone(d, AddMonths(start, k), 1);
    SplitMonths(start, k, 1);
  }

  /**
   Extending month by month never passes the one extension of the same number of months: two one-month
   extensions against `2m`, six against `6m`, twelve against `1y`.
   */
  lemma {:induction false} MonthByMonthNeverPasses(start: Instant, k: nat)
    requires start.Valid()
    ensures var e := ExtendAll(start, seq(k, _ => OneMonth));
      e.Ok? ==> e.value.time == start.time && !AddMonths(start.date, k).Before(e.value.date)
    decreases k
  {
    var durations := seq(k, _ => OneMonth);
    if k > 0 {
      assert durations[..k - 1] == seq(k - 1, _ => OneMonth);
      MonthByMonthNeverPasses(start, k - 1);
      var before := ExtendAll(start, durations[..k - 1]);
      if before.Ok? {
        OneMoreMonth(start.date, before.value.date, k - 1);
      }
    } else {
      AddMonthsZero(start.date);
    }
  }

  /** A custom date replaces the expiry outright: the extension shortens the grant whenever that date is not later. */
  lemma CustomExtensionCanShorten(current: Instant, custom: Date)
    requires current.Valid() && Instant(custom, 0).Valid()
    ensures ComputeExpiry(current, Custom, Some(custom)) == Ok(Instant(custom, 0))
    ensures current.Before(ComputeExpiry(current, Custom, Some(custom)).value) <==> Ordinal(current.date) < Ordinal(custom)
  {
    OrdinalIsChronological(current.date, custom);
  }
}
