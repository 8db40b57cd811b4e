/**
 Dates as the text they are stored in: every form `date.fromisoformat` reads, the day each names, and what
 comparing two of them as text comes to.
 */
module DateText {
  import opened Outcomes
  import opened Calendar
  import opened TextOrder

  /** The day number of 31 December 9999, the last a `date` can hold. */
  const MAX_ORDINAL := 3652059

  // ---------------------------------------------------------------- the forms

  /** A full-date of section 5.6 of RFC 3339. */
  predicate IsFullDate(s: string) {
    && |s| == 10 && s[4] == '-' && s[7] == '-'
    && IsDigits(s[..4]) && IsDigits(s[5..7]) && IsDigits(s[8..])
    && Date(Number(s[..4]), Number(s[5..7]), Number(s[8..])).Valid()
  }

  /** The same calendar date without hyphens. */
  predicate IsBasicDate(s: string) {
    && |s| == 8 && IsDigits(s)
    && Date(Number(s[..4]), Number(s[4..6]), Number(s[6..])).Valid()
  }

  /** A week of a year, `2025-W07`, or a day of that week, `2025-W07-3`. */
  predicate IsWeekDate(s: string) {
    && (|s| == 8 || (|s| == 10 && s[8] == '-' && IsDigits(s[9..])))
    && s[4] == '-' && s[5] == 'W' && IsDigits(s[..4]) && IsDigits(s[6..8])
    && WeekdayExists(Number(s[..4]), Number(s[6..8]), if |s| == 10 then Number(s[9..]) else 1)
  }

  /** The same without hyphens. */
  predicate IsBasicWeek(s: string) {
    && (|s| == 7 || (|s| == 8 && IsDigits(s[7..])))
    && s[4] == 'W' && IsDigits(s[..4]) && IsDigits(s[5..7])
    && WeekdayExists(Number(s[..4]), Number(s[5..7]), if |s| == 8 then Number(s[7..]) else 1)
  }

  function NewYearsDay(year: int): int
    requires year >= 1
  {
    Ordinal(Date(year, 1, 1))
  }

  /** The weekday of 1 January, Monday being zero. */
  function FirstWeekday(year: int): int
    requires year >= 1
  {
    (NewYearsDay(year) + 6) % 7
  }

  /** The Monday of a year's first week, which is the week that holds its first Thursday. */
  function FirstMonday(year: int): int
    requires year >= 1
  {
    NewYearsDay(year) - FirstWeekday(year) + if FirstWeekday(year) > 3 then 7 else 0
  }

  function WeekdayOrdinal(year: int, week: int, day: int): int
    requires year >= 1
  {
    FirstMonday(year) + 7 * (week - 1) + (day - 1)
  }

  predicate WeekdayExists(year: int, week: int, day: int) {
    && 1 <= year && 1 <= week <= 53 && 1 <= day <= 7
    && (week == 53 ==> FirstWeekday(year) == 3 || (FirstWeekday(year) == 2 && IsLeapYear(year)))
    && WeekdayOrdinal(year, week, day) <= MAX_ORDINAL
  }

  /** The first Monday is one, and its week holds 4 January, as the week rule of ISO 8601 has it. */
  lemma FirstWeekHoldsJanuaryFourth(year: int)
    requires year >= 1
    ensures (FirstMonday(year) + 6) % 7 == 0
    ensures FirstMonday(year) <= NewYearsDay(year) + 3 <= FirstMonday(year) + 6
  {
    hide Ordinal;
  }

  /** A year has a fifty-third week exactly if the next year's first week starts 53 weeks after its own. */
  lemma FiftyThreeWeeks(year: int)
    requires year >= 1
    ensures FirstMonday(year + 1) - FirstMonday(year)
         == if FirstWeekday(year) == 3 || (FirstWeekday(year) == 2 && IsLeapYear(year)) then 371 else 364
  {
    hide Ordinal, IsLeapYear;
    NextNewYear(year);
    var w := FirstWeekday(year);
    var length := if IsLeapYear(year) then 366 else 365;
    assert NewYearsDay(year) + 6 == 7 * ((NewYearsDay(year) + 6) / 7) + w;
    WeekdayMoves(NewYearsDay(year) + 6, length - 364);
    hide NewYearsDay;
  }

  lemma NextNewYear(year: int)
    requires year >= 1
    ensures NewYearsDay(year + 1) == NewYearsDay(year) + if IsLeapYear(year) then 366 else 365
  {
  }

  lemma WeekdayMoves(x: int, k: int)
    requires 0 <= k < 7
    ensures (x + 364 + k) % 7 == if x % 7 + k < 7 then x % 7 + k else x % 7 + k - 7
  {
  }

  lemma NewYearsDays(year: int)
    requires year >= 1
    ensures NewYearsDay(year) == DaysBeforeYear(year) + 1
  {
  }

  /** No date is later than the last of year 9999. */
  lemma LastDay()
    ensures Ordinal(Date(9999, 12, 31)) == MAX_ORDINAL
  {
    var y := 9999;
    GregorianDays(y);
    MonthsFillTheYear(y);
    hide DaysBeforeYear, DaysBeforeMonth;
    assert !IsLeapYear(y);
    DecemberEnds(y);
  }

  lemma DecemberEnds(year: int)
    requires year >= 1
    ensures Ordinal(Date(year, 12, 31)) == DaysBeforeYear(year) + if IsLeapYear(year) then 366 else 365
  {
    MonthsFillTheYear(year);
  }

  /** `date.fromisoformat`, as a day number; `None` is the `ValueError`. */
  function ParseDay(s: string): Option<int> {
    if IsFullDate(s) then Some(Ordinal(Date(Number(s[..4]), Number(s[5..7]), Number(s[8..]))))
    else if IsBasicDate(s) then Some(Ordinal(Date(Number(s[..4]), Number(s[4..6]), Number(s[6..]))))
    else if IsWeekDate(s) then Some(WeekdayOrdinal(Number(s[..4]), Number(s[6..8]), if |s| == 10 then Number(s[9..]) else 1))
    else if IsBasicWeek(s) then Some(WeekdayOrdinal(Number(s[..4]), Number(s[5..7]), if |s| == 8 then Number(s[7..]) else 1))
    else None
  }

  predicate IsReadable(s: string) {
    ParseDay(s).Some?
  }

  function DayOf(s: string): int
    requires IsReadable(s)
  {
    ParseDay(s).value
  }

  /** The year as written, which for a week date can differ from the year the day lies in. */
  function YearOf(s: string): (y: nat)
    requires IsReadable(s)
  {
    Number(s[..4])
  }

  /** Where a form sorts among dates of one year: a hyphen comes before a digit, and a digit before a `W`. */
  function FormRank(s: string): (rank: nat)
    requires IsReadable(s)
  {
    if IsFullDate(s) then 0 else if IsWeekDate(s) then 1 else if IsBasicDate(s) then 2 else 3
  }

  /** Writing a calendar date in either form and reading it gives its day. */
  lemma CalendarTexts(y: string, m: string, d: string)
    requires |y| == 4 && |m| == |d| == 2 && IsDigits(y) && IsDigits(m) && IsDigits(d)
    requires Date(Number(y), Number(m), Number(d)).Valid()
    ensures ParseDay(y + "-" + m + "-" + d) == Some(Ordinal(Date(Number(y), Number(m), Number(d))))
    ensures ParseDay(y + m + d) == Some(Ordinal(Date(Number(y), Number(m), Number(d))))
  {
    hide Number, Ordinal, WeekdayExists;
    var full, basic := y + "-" + m + "-" + d, y + m + d;
    assert full[..4] == y && full[5..7] == m && full[8..] == d && full[4] == '-' && full[7] == '-';
    assert basic[..4] == y && basic[4..6] == m && basic[6..] == d;
    assert basic == y + (m + d);
    forall i | 0 <= i < 8 ensures '0' <= basic[i] <= '9' {
      assert basic[i] == if i < 4 then y[i] else if i < 6 then m[i - 4] else d[i - 6];
    }
  }

  /** And so does writing a day of a week; a week alone is its Monday. */
  lemma WeekTexts(y: string, w: string, d: string)
    requires |y| == 4 && |w| == 2 && |d| == 1 && IsDigits(y) && IsDigits(w) && IsDigits(d)
    requires WeekdayExists(Number(y), Number(w), Number(d)) && WeekdayExists(Number(y), Number(w), 1)
    ensures ParseDay(y + "-W" + w + "-" + d) == ParseDay(y + "W" + w + d)
         == Some(FirstMonday(Number(y)) + 7 * (Number(w) - 1) + (Number(d) - 1))
    ensures ParseDay(y + "-W" + w) == ParseDay(y + "W" + w) == Some(FirstMonday(Number(y)) + 7 * (Number(w) - 1))
  {
    hide Number, Ordinal, WeekdayExists, FirstMonday, ParseDay;
    assert y + "-W" + w + "" == y + "-W" + w && y + "W" + w + "" == y + "W" + w;
    HyphenatedWeek(y, w, "-" + d, d);
    HyphenatedWeek(y, w, "", d);
    PlainWeek(y, w, d);
    PlainWeek(y, w, "");
    assert y + "-W" + w + ("-" + d) == y + "-W" + w + "-" + d;
  }

  lemma HyphenatedWeek(y: string, w: string, tail: string, d: string)
    requires |y| == 4 && |w| == 2 && |d| == 1 && IsDigits(y) && IsDigits(w) && IsDigits(d)
    requires tail == "" || tail == "-" + d
    requires WeekdayExists(Number(y), Number(w), if tail == "" then 1 else Number(d))
    ensures ParseDay(y + "-W" + w + tail) == Some(WeekdayOrdinal(Number(y), Number(w), if tail == "" then 1 else Number(d)))
  {
    hide Number, Ordinal, WeekdayExists, WeekdayOrdinal;
    var s := y + "-W" + w + tail;
    assert s[..4] == y && s[6..8] == w && s[4] == '-' && s[5] == 'W';
    assert tail != "" ==> s[9..] == d && s[8] == '-';
    NotCalendar(s);
    hide IsFullDate, IsBasicDate, IsBasicWeek;
  }

  lemma PlainWeek(y: string, w: string, d: string)
    requires |y| == 4 && |w| == 2 && |d| <= 1 && IsDigits(y) && IsDigits(w) && IsDigits(d)
    requires WeekdayExists(Number(y), Number(w), if d == "" then 1 else Number(d))
    ensures ParseDay(y + "W" + w + d) == Some(WeekdayOrdinal(Number(y), Number(w), if d == "" then 1 else Number(d)))
  {
    hide Number, Ordinal, WeekdayExists, WeekdayOrdinal;
    var s := y + "W" + w + d;
    assert s[..4] == y && s[5..7] == w && s[7..] == d && s[4] == 'W';
    NotCalendar(s);
    hide IsFullDate, IsBasicDate, IsWeekDate;
  }

  lemma NotCalendar(s: string)
    requires |s| >= 7 && (s[4] == 'W' || (s[4] == '-' && s[5] == 'W'))
    ensures !IsFullDate(s) && !IsBasicDate(s)
    ensures s[4] == '-' ==> !IsBasicWeek(s)
    ensures s[4] == 'W' ==> !IsWeekDate(s)
  {
    hide Number;
    assert s[5..7][0] == s[5];
  }

  // ---------------------------------------------------------------- comparing within one form

  lemma SplitYear(s: string)
    requires IsReadable(s)
    ensures |s| >= 7 && s == s[..4] + s[4..] && IsDigits(s[..4])
  {
  }

  /** Two dates of one year and one form: the tails after the year decide. */
  lemma FullTails(a: string, b: string)
    requires IsFullDate(a) && IsFullDate(b)
    ensures Less(a[4..], b[4..])
            <==> Number(a[5..7]) < Number(b[5..7]) || (Number(a[5..7]) == Number(b[5..7]) && Number(a[8..]) < Number(b[8..]))
  {
    var da, db := a[7..], b[7..];
    assert a[4..] == "-" + (a[5..7] + da) && da == "-" + a[8..];
    assert b[4..] == "-" + (b[5..7] + db) && db == "-" + b[8..];
    LessByPrefix("-", a[5..7] + da, "-", b[5..7] + db);
    LessByPrefix(a[5..7], da, b[5..7], db);
    LessByPrefix("-", a[8..], "-", b[8..]);
    PaddedNumbers(a[5..7], b[5..7]);
    PaddedNumbers(a[8..], b[8..]);
    hide Less, Number;
  }

  lemma BasicTails(a: string, b: string)
    requires IsBasicDate(a) && IsBasicDate(b)
    ensures Less(a[4..], b[4..])
            <==> Number(a[4..6]) < Number(b[4..6]) || (Number(a[4..6]) == Number(b[4..6]) && Number(a[6..]) < Number(b[6..]))
  {
    assert a[4..] == a[4..6] + a[6..] && b[4..] == b[4..6] + b[6..];
    LessByPrefix(a[4..6], a[6..], b[4..6], b[6..]);
    PaddedNumbers(a[4..6], b[4..6]);
    PaddedNumbers(a[6..], b[6..]);
    hide Less, Number;
  }

  /** A missing weekday sorts before a written one. */
  lemma LessEnds(a: string, b: string)
    requires |a| <= 1 && |b| <= 1 && IsDigits(a) && IsDigits(b)
    ensures Less(a, b) <==> |a| < |b| || (|a| == |b| == 1 && Number(a) < Number(b))
  {
    if |a| == |b| { PaddedNumbers(a, b); }
  }

  function Weekday(digits: string): int
    requires IsDigits(digits)
  {
    if digits == "" then 1 else Number(digits)
  }

  /** `ww` and then at most one digit: the week first, then the weekday, then whether it is written at all. */
  lemma WeekTails(wa: string, da: string, wb: string, db: string)
    requires |wa| == |wb| == 2 && IsDigits(wa) && IsDigits(wb)
    requires |da| <= 1 && |db| <= 1 && IsDigits(da) && IsDigits(db) && Weekday(da) >= 1 && Weekday(db) >= 1
    ensures Less(wa + da, wb + db)
            <==> (Number(wa) < Number(wb)
                  || (Number(wa) == Number(wb) && (Weekday(da) < Weekday(db) || (Weekday(da) == Weekday(db) && |da| < |db|))))
  {
    LessByPrefix(wa, da, wb, db);
    PaddedNumbers(wa, wb);
    LessEnds(da, db);
    hide Less;
  }

  lemma FullOrder(a: string, b: string)
    requires IsFullDate(a) && IsFullDate(b) && Number(a[..4]) == Number(b[..4])
    ensures Less(a[4..], b[4..]) <==> DayOf(a) < DayOf(b)
  {
    FullTails(a, b);
    OrdinalIsChronological(Date(Number(a[..4]), Number(a[5..7]), Number(a[8..])), Date(Number(b[..4]), Number(b[5..7]), Number(b[8..])));
    hide Less, Number, Ordinal;
  }

  lemma BasicOrder(a: string, b: string)
    requires IsBasicDate(a) && IsBasicDate(b) && Number(a[..4]) == Number(b[..4])
    ensures Less(a[4..], b[4..]) <==> DayOf(a) < DayOf(b)
  {
    BasicTails(a, b);
    OrdinalIsChronological(Date(Number(a[..4]), Number(a[4..6]), Number(a[6..])), Date(Number(b[..4]), Number(b[4..6]), Number(b[6..])));
    hide Less, Number, Ordinal;
  }

  lemma WeekdayOrder(year: int, w: int, d: int, v: int, e: int)
    requires year >= 1 && 1 <= d <= 7 && 1 <= e <= 7
    ensures WeekdayOrdinal(year, w, d) < WeekdayOrdinal(year, v, e) <==> w < v || (w == v && d < e)
    ensures WeekdayOrdinal(year, w, d) == WeekdayOrdinal(year, v, e) <==> w == v && d == e
  {
    hide FirstMonday;
  }

  /** The digits of a weekday written after a hyphen, if any. */
  function AfterHyphen(s: string): string {
    if |s| == 10 then s[9..] else ""
  }

  lemma WeekOrder(a: string, b: string)
    requires IsWeekDate(a) && IsWeekDate(b) && Number(a[..4]) == Number(b[..4])
    ensures Less(a[4..], b[4..]) <==> DayOf(a) < DayOf(b) || (DayOf(a) == DayOf(b) && |a| < |b|)
  {
    HyphenTails(a, b);
    WeekTails(a[6..8], AfterHyphen(a), b[6..8], AfterHyphen(b));
    WeekdayOrder(Number(a[..4]), Number(a[6..8]), Weekday(AfterHyphen(a)), Number(b[6..8]), Weekday(AfterHyphen(b)));
    assert DayOf(a) == WeekdayOrdinal(Number(a[..4]), Number(a[6..8]), Weekday(AfterHyphen(a)));
    assert DayOf(b) == WeekdayOrdinal(Number(b[..4]), Number(b[6..8]), Weekday(AfterHyphen(b)));
    hide Less, Number, WeekdayOrdinal;
  }

  /** The hyphen before the weekday does not change the order. */
  lemma HyphenTails(a: string, b: string)
    requires IsWeekDate(a) && IsWeekDate(b)
    ensures Less(a[4..], b[4..]) <==> Less(a[6..8] + AfterHyphen(a), b[6..8] + AfterHyphen(b))
  {
    var ta, tb := a[8..], b[8..];
    assert a[4..] == "-W" + (a[6..8] + ta) && b[4..] == "-W" + (b[6..8] + tb);
    LessByPrefix("-W", a[6..8] + ta, "-W", b[6..8] + tb);
    LessByPrefix(a[6..8], ta, b[6..8], tb);
    LessByPrefix(a[6..8], AfterHyphen(a), b[6..8], AfterHyphen(b));
    assert !Less("-W", "-W") by { LessIsTotal("-W", "-W"); }
    assert |a| == 10 ==> ta == "-" + AfterHyphen(a);
    assert |b| == 10 ==> tb == "-" + AfterHyphen(b);
    if |a| == 10 && |b| == 10 {
      LessByPrefix("-", AfterHyphen(a), "-", AfterHyphen(b));
      assert !Less("-", "-") by { LessIsTotal("-", "-"); }
    }
  }

  lemma BasicWeekOrder(a: string, b: string)
    requires IsBasicWeek(a) && IsBasicWeek(b) && Number(a[..4]) == Number(b[..4])
    ensures Less(a[4..], b[4..]) <==> DayOf(a) < DayOf(b) || (DayOf(a) == DayOf(b) && |a| < |b|)
  {
    assert a[4..] == "W" + (a[5..7] + a[7..]) && b[4..] == "W" + (b[5..7] + b[7..]);
    LessByPrefix("W", a[5..7] + a[7..], "W", b[5..7] + b[7..]);
    assert !Less("W", "W") by { LessIsTotal("W", "W"); }
    WeekTails(a[5..7], a[7..], b[5..7], b[7..]);
    WeekdayOrder(Number(a[..4]), Number(a[5..7]), Weekday(a[7..]), Number(b[5..7]), Weekday(b[7..]));
    assert DayOf(a) == WeekdayOrdinal(Number(a[..4]), Number(a[5..7]), Weekday(a[7..]));
    assert DayOf(b) == WeekdayOrdinal(Number(b[..4]), Number(b[5..7]), Weekday(b[7..]));
    hide Less, Number, WeekdayOrdinal;
  }

  // ---------------------------------------------------------------- comparing any two

  lemma FormsDiffer(a: string, b: string)
    requires IsReadable(a) && IsReadable(b) && FormRank(a) < FormRank(b)
    ensures Less(a[4..], b[4..]) && !Less(b[4..], a[4..])
  {
    hide Number, WeekdayExists;
    assert a[4..][0] == a[4] && b[4..][0] == b[4];
    assert a[4..][1..][0] == a[5] && b[4..][1..][0] == b[5];
  }

  /**
   What comparing two readable dates as text looks at: the year as written, then the form, then the day, and
   for one and the same day whether its weekday was left out.
   */
  lemma TextOrderOfDates(a: string, b: string)
    requires IsReadable(a) && IsReadable(b)
    ensures Less(a, b)
            <==> (YearOf(a) < YearOf(b)
                  || (YearOf(a) == YearOf(b)
                      && (FormRank(a) < FormRank(b)
                          || (FormRank(a) == FormRank(b) && (DayOf(a) < DayOf(b) || (DayOf(a) == DayOf(b) && |a| < |b|))))))
  {
    SplitYear(a);
    SplitYear(b);
    LessByPrefix(a[..4], a[4..], b[..4], b[4..]);
    PaddedNumbers(a[..4], b[..4]);
    if YearOf(a) == YearOf(b) {
      if FormRank(a) < FormRank(b) { FormsDiffer(a, b); }
      else if FormRank(b) < FormRank(a) { FormsDiffer(b, a); }
      else { SameFormOrder(a, b); }
    }
    hide Less, DayOf, FormRank, IsReadable;
  }

  lemma SameFormOrder(a: string, b: string)
    requires IsReadable(a) && IsReadable(b) && YearOf(a) == YearOf(b) && FormRank(a) == FormRank(b)
    ensures Less(a[4..], b[4..]) <==> DayOf(a) < DayOf(b) || (DayOf(a) == DayOf(b) && |a| < |b|)
  {
    hide Less, Number, WeekdayExists, WeekdayOrdinal, Ordinal;
    if IsFullDate(a) { FullOrder(a, b); }
    else if IsWeekDate(a) { WeekOrder(a, b); }
    else if IsBasicDate(a) { BasicOrder(a, b); }
    else { BasicWeekOrder(a, b); }
  }

  /** Text order and the calendar give one verdict on "earlier". */
  predicate InStep(a: string, b: string)
    requires IsReadable(a) && IsReadable(b)
  {
    if YearOf(a) != YearOf(b) then YearOf(a) < YearOf(b) <==> DayOf(a) < DayOf(b)
    else if FormRank(a) != FormRank(b) then FormRank(a) < FormRank(b) <==> DayOf(a) < DayOf(b)
    else DayOf(a) == DayOf(b) ==> |a| >= |b|
  }

  lemma InStepExactly(a: string, b: string)
    requires IsReadable(a) && IsReadable(b)
    ensures InStep(a, b) <==> (Less(a, b) <==> DayOf(a) < DayOf(b))
  {
    TextOrderOfDates(a, b);
    hide Less, DayOf, FormRank, IsReadable, YearOf;
  }

  predicate IsCalendarDate(s: string) {
    IsFullDate(s) || IsBasicDate(s)
  }

  lemma EarlierYear(a: Date, b: Date)
    requires a.Valid() && b.Valid() && a.year < b.year
    ensures Ordinal(a) < Ordinal(b)
  {
    OrdinalIsChronological(a, b);
  }

  /** Calendar dates fall out of step only when they mix the two forms within one year. */
  lemma CalendarDatesInStep(a: string, b: string)
    requires IsCalendarDate(a) && IsCalendarDate(b)
    ensures InStep(a, b) <==> YearOf(a) != YearOf(b) || IsFullDate(a) == IsFullDate(b) || (IsFullDate(a) <==> DayOf(a) < DayOf(b))
  {
    var da, db := CalendarDate(a), CalendarDate(b);
    if da.year < db.year { EarlierYear(da, db); }
    if db.year < da.year { EarlierYear(db, da); }
    hide Number, Ordinal, WeekdayExists, WeekdayOrdinal;
  }

  function CalendarDate(s: string): (d: Date)
    requires IsCalendarDate(s)
    ensures d.Valid() && DayOf(s) == Ordinal(d) && YearOf(s) == d.year
  {
    if IsFullDate(s) then Date(Number(s[..4]), Number(s[5..7]), Number(s[8..]))
    else Date(Number(s[..4]), Number(s[4..6]), Number(s[6..]))
  }

  /** In particular, comparing full-dates as text is comparing the days they name. */
  lemma TextOrderIsChronological(a: string, b: string)
    requires IsFullDate(a) && IsFullDate(b)
    ensures Less(a, b) <==> DayOf(a) < DayOf(b)
  {
    CalendarDatesInStep(a, b);
    InStepExactly(a, b);
  }

  /** And a hyphenless date against a full-date is compared by its year alone. */
  lemma HyphenlessDatesCompareYears(basic: string, full: string)
    requires IsBasicDate(basic) && IsFullDate(full)
    ensures Less(basic, full) <==> YearOf(basic) < YearOf(full)
    ensures Less(full, basic) <==> YearOf(full) <= YearOf(basic)
  {
    TextOrderOfDates(basic, full);
    TextOrderOfDates(full, basic);
    hide Less, Number, DayOf;
  }

  lemma Digits()
    ensures IsDigits("01") && IsDigits("06") && IsDigits("2025") && Number("01") == 1 && Number("06") == 6 && Number("2025") == 2025
  {
    TwoDigits("01");
    TwoDigits("06");
    FourDigits("2025");
    hide Number;
  }

  lemma WithoutHyphens()
    ensures IsBasicDate("20250101") && CalendarDate("20250101") == Date(2025, 1, 1)
  {
    Digits();
    hide Number, Ordinal;
    var a := "20250101";
    assert a[..4] == "2025" && a[4..6] == "01" && a[6..] == "01";
  }

  lemma WithHyphens()
    ensures IsFullDate("2025-06-01") && CalendarDate("2025-06-01") == Date(2025, 6, 1)
  {
    Digits();
    hide Number, Ordinal;
    var b := "2025-06-01";
    assert b[..4] == "2025" && b[5..7] == "06" && b[8..] == "01";
  }

  /** New Year's Day without hyphens is earlier than 1 June of its year, and does not sort before it. */
  lemma HyphenlessNewYear()
    ensures IsBasicDate("20250101") && IsFullDate("2025-06-01")
    ensures DayOf("20250101") < DayOf("2025-06-01") && !Less("20250101", "2025-06-01") && !InStep("20250101", "2025-06-01")
  {
    hide Number, Ordinal, Less, IsFullDate, IsBasicDate, CalendarDate, InStep, DayOf, YearOf;
    WithoutHyphens();
    WithHyphens();
    OrdinalIsChronological(Date(2025, 1, 1), Date(2025, 6, 1));
    assert !IsFullDate("20250101") by { EightIsNotTen(); }
    CalendarDatesInStep("20250101", "2025-06-01");
    InStepExactly("20250101", "2025-06-01");
  }

  lemma EightIsNotTen()
    ensures !IsFullDate("20250101")
  {
  }

  lemma TwoDigits(s: string)
    requires |s| == 2 && IsDigits(s)
    ensures Number(s) == 10 * (s[0] as int - '0' as int) + (s[1] as int - '0' as int)
  {
    assert s[..1][..0] == "";
    assert Number(s[..1]) == 10 * Number("") + (s[0] as int - '0' as int);
  }

  lemma FourDigits(s: string)
    requires |s| == 4 && IsDigits(s)
    ensures Number(s) == 100 * (10 * (s[0] as int - '0' as int) + (s[1] as int - '0' as int))
                         + 10 * (s[2] as int - '0' as int) + (s[3] as int - '0' as int)
  {
    assert s[..3][..2] == s[..2];
    TwoDigits(s[..2]);
  }
}
