/** apps/api-gateway/src/checkout/delivery-slots.ts over the calendar of section 21.4.1 of
    ECMA-262: days counted from 1970-01-01, proleptic Gregorian years, no leap seconds.
    An invalid Date is None. */
module IstCalendar {

  import opened JsText

  // ----- the Gregorian calendar by its rules -----

  /** month counts from 0, as in JavaScript; day counts from 1. */
  datatype Date = Date(year: int, month: int, day: int)

  predicate IsLeap(year: int) {
    year % 4 == 0 && (year % 100 != 0 || year % 400 == 0)
  }

  function DaysInMonth(year: int, month: int): (days: int)
    requires 0 <= month < 12
    ensures 28 <= days <= 31
  {
    if month == 1 then (if IsLeap(year) then 29 else 28)
    else if month == 3 || month == 5 || month == 8 || month == 10 then 30
    else 31
  }

  predicate ValidDate(d: Date) {
    0 <= d.month < 12 && 1 <= d.day <= DaysInMonth(d.year, d.month)
  }

  function NextDay(d: Date): (next: Date)
    requires ValidDate(d)
    ensures ValidDate(next)
  {
    if d.day < DaysInMonth(d.year, d.month) then Date(d.year, d.month, d.day + 1)
    else if d.month < 11 then Date(d.year, d.month + 1, 1)
    else Date(d.year + 1, 0, 1)
  }

  function PreviousDay(d: Date): (previous: Date)
    requires ValidDate(d)
    ensures ValidDate(previous) && NextDay(previous) == d
  {
    if d.day > 1 then Date(d.year, d.month, d.day - 1)
    else if d.month > 0 then Date(d.year, d.month - 1, DaysInMonth(d.year, d.month - 1))
    else Date(d.year - 1, 11, 31)
  }

  /** The date k days after d, or -k days before it, one day at a time. */
  function AddDays(d: Date, k: int): (r: Date)
    requires ValidDate(d)
    ensures ValidDate(r)
    decreases if k < 0 then -k else k
  {
    if k == 0 then d
    else if k > 0 then AddDays(NextDay(d), k - 1)
    else AddDays(PreviousDay(d), k + 1)
  }

  // ----- day numbers, section 21.4.1.3 to 21.4.1.5 -----

  function DaysInYear(y: int): int { if IsLeap(y) then 366 else 365 }

  /** The day number of January 1, by the lengths of the years since or until 1970. */
  function DayFromYear(y: int): int
    decreases if y < 1970 then 1970 - y else y - 1970
  {
    if y == 1970 then 0
    else if y > 1970 then DayFromYear(y - 1) + DaysInYear(y - 1)
    else DayFromYear(y + 1) - DaysInYear(y)
  }

  /** Days of a year before the first of a month. */
  function DaysBeforeMonth(year: int, month: int): int
    requires 0 <= month < 12
    decreases month
  {
    if month == 0 then 0 else DaysBeforeMonth(year, month - 1) + DaysInMonth(year, month - 1)
  }

  lemma YearLength(y: int)
    ensures DayFromYear(y + 1) == DayFromYear(y) + DaysInYear(y)
  {}

  /** The formula of section 21.4.1.3. */
  ghost function DayFromYearFormula(y: int): int {
    365 * (y - 1970) + (y - 1969) / 4 - (y - 1901) / 100 + (y - 1601) / 400
  }

  lemma {:induction false} FormulaHolds(y: int)
    ensures DayFromYear(y) == DayFromYearFormula(y)
    decreases if y < 1970 then 1970 - y else y - 1970
  {
    hide DayFromYearFormula, IsLeap;
    if y == 1970 {
      FormulaStart();
    } else if y > 1970 {
      FormulaHolds(y - 1);
      FormulaStep(y - 1);
    } else {
      FormulaHolds(y + 1);
      FormulaStep(y);
    }
  }

  lemma FormulaStart()
    ensures DayFromYearFormula(1970) == 0
  {}

  lemma FormulaStep(y: int)
    ensures DayFromYearFormula(y + 1) == DayFromYearFormula(y) + DaysInYear(y)
  {
    FourStep(y);
    CenturyStep(y);
    FourCenturyStep(y);
    RulesNest(y);
  }

  lemma FourStep(y: int)
    ensures (y + 1 - 1969) / 4 == (y - 1969) / 4 + if y % 4 == 0 then 1 else 0
  {}

  lemma CenturyStep(y: int)
    ensures (y + 1 - 1901) / 100 == (y - 1901) / 100 + if y % 100 == 0 then 1 else 0
  {}

  lemma FourCenturyStep(y: int)
    ensures (y + 1 - 1601) / 400 == (y - 1601) / 400 + if y % 400 == 0 then 1 else 0
  {}

  lemma RulesNest(y: int)
    ensures (y % 400 == 0 ==> y % 100 == 0) && (y % 100 == 0 ==> y % 4 == 0)
  {}

  lemma {:induction false} YearsIncrease(y: int, z: int)
    requires y <= z
    ensures DayFromYear(y) + 365 * (z - y) <= DayFromYear(z)
    decreases z - y
  {
    hide DayFromYear;
    if y < z {
      YearLength(y);
      YearsIncrease(y + 1, z);
    }
  }

  /** The year a day lies in, searched for upwards. */
  function YearFrom(y: int, n: int): (r: int)
    requires DayFromYear(y) <= n
    ensures DayFromYear(r) <= n < DayFromYear(r + 1)
    decreases n - DayFromYear(y)
  {
    YearLength(y);
    if n < DayFromYear(y + 1) then y else YearFrom(y + 1, n)
  }

  function YearFromDay(n: int): (r: int)
    ensures DayFromYear(r) <= n < DayFromYear(r + 1)
  {
    YearsIncrease(if n < 0 then 1970 + n else 1970, 1970);
    YearFrom(if n < 0 then 1970 + n else 1970, n)
  }

  lemma YearUnique(y: int, n: int)
    requires DayFromYear(y) <= n < DayFromYear(y + 1)
    ensures YearFromDay(n) == y
  {
    hide DayFromYear;
    var r := YearFromDay(n);
    if r < y {
      YearsIncrease(r + 1, y);
    } else if y < r {
      YearsIncrease(y + 1, r);
    }
  }

  function MonthOf(year: int, dayInYear: int, month: int): (r: int)
    requires 0 <= month < 12 && DaysBeforeMonth(year, month) <= dayInYear
    ensures month <= r < 12 && DaysBeforeMonth(year, r) <= dayInYear
    ensures r < 11 ==> dayInYear < DaysBeforeMonth(year, r + 1)
    decreases 12 - month
  {
    if month == 11 || dayInYear < DaysBeforeMonth(year, month + 1) then month
    else MonthOf(year, dayInYear, month + 1)
  }

  /** Year, month and day of a day number. */
  function DateFromDay(n: int): Date {
    var y := YearFromDay(n);
    var inYear := n - DayFromYear(y);
    var m := MonthOf(y, inYear, 0);
    Date(y, m, inYear - DaysBeforeMonth(y, m) + 1)
  }

  /** The day number of a year, a month counted from its January, and a day counted from
      the first of that month; month and day need not be in range. */
  function MakeDay(year: int, month: int, day: int): int {
    var y, m := year + month / 12, month % 12;
    DayFromYear(y) + DaysBeforeMonth(y, m) + day - 1
  }

  function DayFromDate(d: Date): int { MakeDay(d.year, d.month, d.day) }

  /** The months make up the year. */
  lemma MonthsMakeYear(year: int)
    ensures DaysBeforeMonth(year, 11) + DaysInMonth(year, 11) == DaysInYear(year)
  {
    assert DaysBeforeMonth(year, 2) == 31 + DaysInMonth(year, 1);
    assert DaysBeforeMonth(year, 4) == DaysBeforeMonth(year, 2) + 61;
    assert DaysBeforeMonth(year, 6) == DaysBeforeMonth(year, 4) + 61;
    assert DaysBeforeMonth(year, 8) == DaysBeforeMonth(year, 6) + 62;
    assert DaysBeforeMonth(year, 10) == DaysBeforeMonth(year, 8) + 61;
  }

  lemma MonthLength(year: int, month: int)
    requires 0 <= month < 12
    ensures DaysBeforeMonth(year, month) + DaysInMonth(year, month) ==
            if month == 11 then DaysInYear(year) else DaysBeforeMonth(year, month + 1)
  {
    if month == 11 {
      MonthsMakeYear(year);
    }
  }

  lemma {:induction false} MonthsIncrease(year: int, m: int, m': int)
    requires 0 <= m <= m' < 12
    ensures 0 <= DaysBeforeMonth(year, m) <= DaysBeforeMonth(year, m')
    decreases m'
  {
    hide DaysInMonth;
    if m < m' {
      MonthsIncrease(year, m, m' - 1);
    } else if m' > 0 {
      MonthsIncrease(year, m - 1, m' - 1);
    }
  }

  lemma InYear(d: Date)
    requires ValidDate(d)
    ensures 0 <= DaysBeforeMonth(d.year, d.month) + d.day - 1 < DaysInYear(d.year)
  {
    hide DaysInMonth, DaysInYear;
    MonthLength(d.year, d.month);
    MonthLength(d.year, 11);
    MonthsIncrease(d.year, d.month, 11);
    if d.month < 11 {
      MonthsIncrease(d.year, d.month + 1, 11);
    }
  }

  /** The day number of a valid date has that date. */
  lemma DateOfDayOfDate(d: Date)
    requires ValidDate(d)
    ensures DateFromDay(DayFromDate(d)) == d
  {
    hide DayFromYear, DaysInYear, DaysBeforeMonth, DaysInMonth;
    var n := DayFromDate(d);
    var inYear := n - DayFromYear(d.year);
    YearLength(d.year);
    InYear(d);
    YearUnique(d.year, n);
    MonthsIncrease(d.year, 0, d.month);
    MonthLength(d.year, d.month);
    FirstOfYear(d.year);
    var m := MonthOf(d.year, inYear, 0);
    if m < d.month {
      MonthsIncrease(d.year, m + 1, d.month);
    } else if d.month < m {
      MonthsIncrease(d.year, d.month + 1, m);
    }
  }

  lemma FirstOfYear(year: int)
    ensures DaysBeforeMonth(year, 0) == 0
  {}

  /** Every day number is that of its date, which is valid. */
  lemma DayOfDateOfDay(n: int)
    ensures ValidDate(DateFromDay(n)) && DayFromDate(DateFromDay(n)) == n
  {
    hide DayFromYear, DaysInYear, DaysBeforeMonth, DaysInMonth;
    var y := YearFromDay(n);
    FirstOfYear(y);
    YearLength(y);
    MonthLength(y, DateFromDay(n).month);
  }

  // ----- the month table -----

  const MONTH_STARTS: seq<int> := [0, 31, 59, 90, 120, 151, 181, 212, 243, 273, 304, 334, 365]

  /** The day number of the first of a month, by formula and table alone; month 12 is the
      next January. */
  ghost function FirstOfMonth(y: int, month: int): int
    requires 0 <= month <= 12
  {
    365 * (y - 1970) + (y - 1969) / 4 - (y - 1901) / 100 + (y - 1601) / 400 + MONTH_STARTS[month]
    + if month >= 2 && y % 4 == 0 && (y % 100 != 0 || y % 400 == 0) then 1 else 0
  }

  /** The date is one of the calendar, as the table has it. */
  ghost predicate OnCalendar(d: Date) {
    0 <= d.month < 12 && 1 <= d.day <= FirstOfMonth(d.year, d.month + 1) - FirstOfMonth(d.year, d.month)
  }

  lemma {:induction false} MonthTable(y: int, month: int)
    requires 0 <= month < 12
    ensures DayFromDate(Date(y, month, 1)) == FirstOfMonth(y, month)
    decreases month
  {
    hide DayFromYear;
    FormulaHolds(y);
    if month > 0 {
      MonthTable(y, month - 1);
    }
  }

  lemma CalendarByTable(d: Date)
    ensures ValidDate(d) <==> OnCalendar(d)
    ensures ValidDate(d) ==> DayFromDate(d) == FirstOfMonth(d.year, d.month) + d.day - 1
  {
    hide DayFromYear;
    if 0 <= d.month < 12 {
      MonthTable(d.year, d.month);
    }
  }

  /** A day number has exactly the date whose month, by the table, holds it. */
  lemma DateByTable(n: int, d: Date)
    ensures DateFromDay(n) == d <==>
            0 <= d.month < 12 && d.day >= 1
            && n == FirstOfMonth(d.year, d.month) + d.day - 1 < FirstOfMonth(d.year, d.month + 1)
  {
    hide FirstOfMonth, DateFromDay, DayFromDate, ValidDate;
    CalendarByTable(d);
    DayOfDateOfDay(n);
    if ValidDate(d) {
      DateOfDayOfDate(d);
    }
  }

  lemma NextDayNumber(d: Date)
    requires ValidDate(d)
    ensures DayFromDate(NextDay(d)) == DayFromDate(d) + 1
  {
    hide DayFromYear, DaysInYear, DaysBeforeMonth, DaysInMonth;
    YearLength(d.year);
    MonthLength(d.year, d.month);
    FirstOfYear(d.year + 1);
    if d.month < 11 {
      FirstOfYear(d.year);
    }
  }

  lemma {:induction false} AddDaysNumber(d: Date, k: int)
    requires ValidDate(d)
    ensures DayFromDate(AddDays(d, k)) == DayFromDate(d) + k
    decreases if k < 0 then -k else k
  {
    hide DayFromDate, ValidDate, NextDay, PreviousDay;
    if k > 0 {
      NextDayNumber(d);
      AddDaysNumber(NextDay(d), k - 1);
    } else if k < 0 {
      NextDayNumber(PreviousDay(d));
      AddDaysNumber(PreviousDay(d), k + 1);
    }
  }

  // ----- JavaScript dates -----

  const MS_PER_MINUTE := 60_000
  const MS_PER_DAY := 86_400_000
  const MAX_TIME := 8_640_000_000_000_000

  function TimeClip(t: int): Option<int> {
    if -MAX_TIME <= t <= MAX_TIME then Some(t) else None
  }

  /** Date.UTC takes the years 0 to 99 for 1900 to 1999. */
  function FullYear(year: int): int {
    if 0 <= year <= 99 then 1900 + year else year
  }

  function DateUTC(year: int, month: int, day: int, hours: int, minutes: int): Option<int> {
    TimeClip(MakeDay(FullYear(year), month, day) * MS_PER_DAY + hours * 60 * MS_PER_MINUTE + minutes * MS_PER_MINUTE)
  }

  function UTCDate(t: int): Date { DateFromDay(t / MS_PER_DAY) }

  /** JavaScript's remainder takes the sign of its left operand. */
  function Remainder(a: int, b: int): int
    requires b > 0
  {
    if a >= 0 then a % b else -((-a) % b)
  }

  // ----- the slots -----

  const IST_OFFSET := 330 * MS_PER_MINUTE

  function IstCalendarDate(instant: Option<int>): Option<Date> {
    match instant
    case None => None
    case Some(t) =>
      match TimeClip(t + IST_OFFSET)
      case None => None
      case Some(shifted) => Some(UTCDate(shifted))
  }

  function IstSlotInstant(date: Date, dayOffset: int, minuteOfDay: int): Option<int> {
    match DateUTC(date.year, date.month, date.day + dayOffset, 0, 0)
    case None => None
    case Some(calendarDay) =>
      var c := UTCDate(calendarDay);
      match DateUTC(c.year, c.month, c.day, minuteOfDay / 60, Remainder(minuteOfDay, 60))
      case None => None
      case Some(utcMillis) => TimeClip(utcMillis - IST_OFFSET)
  }

  /** Date.UTC would read the year as another one. */
  predicate Remapped(d: Date) { 0 <= d.year <= 99 }

  /** The UTC midnight that starts the date k days after d. */
  function Midnight(d: Date, k: int): int { (DayFromDate(d) + k) * MS_PER_DAY }

  /** Minute m after that midnight, IST. */
  function SlotTime(d: Date, k: int, m: int): int { Midnight(d, k) + m * MS_PER_MINUTE - IST_OFFSET }

  /** The times that occur on the way to a slot and back are ones a Date can hold. */
  predicate InRange(d: Date, k: int, m: int) {
    && TimeClip(Midnight(d, k)).Some?
    && TimeClip(SlotTime(d, k, m)).Some?
    && TimeClip(SlotTime(d, k, m) + IST_OFFSET).Some?
  }

  /** The minutes that hours floor(m / 60) and minutes m % 60 add up to in JavaScript. */
  function MinutesUsed(m: int): (used: int)
    ensures used == m / 60 * 60 + Remainder(m, 60)
    ensures used == m <==> m >= 0 || m % 60 == 0
    ensures used != m ==> used == m - 60
  {
    if m >= 0 || m % 60 == 0 then m else m - 60
  }

  lemma DayOfTime(n: int, rest: int)
    requires 0 <= rest < MS_PER_DAY
    ensures (n * MS_PER_DAY + rest) / MS_PER_DAY == n
  {}

  /** The day number that Date.UTC makes of a valid date, never earlier than its own. */
  function DayRead(d: Date): (n: int)
    requires ValidDate(d)
    ensures n >= DayFromDate(d)
    ensures n == DayFromDate(d) <==> !Remapped(d)
  {
    ReadLater(d);
    MakeDay(FullYear(d.year), d.month, d.day)
  }

  lemma ReadLater(d: Date)
    requires ValidDate(d)
    ensures Remapped(d) ==> DayFromDate(d) < MakeDay(FullYear(d.year), d.month, d.day)
  {
    hide DayFromYear, DaysInYear, DaysBeforeMonth, DaysInMonth;
    YearsIncrease(d.year, FullYear(d.year));
    InYear(d);
    AtMost366(d.year);
    MonthsIncrease(FullYear(d.year), 0, d.month);
  }

  lemma AtMost366(y: int)
    ensures DaysInYear(y) <= 366
  {}

  /** What the function computes, in terms of day numbers, for every valid date. */
  lemma SlotInstantComputed(d: Date, k: int, m: int)
    requires ValidDate(d)
    ensures var n := DayRead(d) + k;
            && ValidDate(DateFromDay(n))
            && IstSlotInstant(d, k, m) ==
               if TimeClip(n * MS_PER_DAY).None? then None else
               var t := DayRead(DateFromDay(n)) * MS_PER_DAY + MinutesUsed(m) * MS_PER_MINUTE;
               if TimeClip(t).None? then None else TimeClip(t - IST_OFFSET)
  {
    hide DayFromYear, DaysBeforeMonth, DateFromDay;
    var n := DayRead(d) + k;
    DayOfDateOfDay(n);
    DayOfTime(n, 0);
    assert MakeDay(FullYear(d.year), d.month, d.day + k) == n;
  }

  lemma AddedDate(d: Date, k: int)
    requires ValidDate(d)
    ensures DateFromDay(DayFromDate(d) + k) == AddDays(d, k)
  {
    AddDaysNumber(d, k);
    DateOfDayOfDate(AddDays(d, k));
  }

  /** Unless a year is misread, the slot is at its minute after midnight IST, k days on;
      only a negative minute that is no multiple of 60 lands, one hour early. */
  lemma SlotInstantExact(d: Date, k: int, m: int)
    requires ValidDate(d) && !Remapped(d) && !Remapped(AddDays(d, k))
    ensures IstSlotInstant(d, k, m) ==
            if InRange(d, k, MinutesUsed(m)) then Some(SlotTime(d, k, MinutesUsed(m))) else None
  {
    hide DayFromYear, DaysBeforeMonth, DateFromDay, DayRead, DayFromDate, IstSlotInstant, AddDays;
    SlotInstantComputed(d, k, m);
    AddedDate(d, k);
    AddDaysNumber(d, k);
  }

  /** The IST date of an instant, in milliseconds, by formula and table. */
  lemma IstDateExact(t: int, d: Date)
    ensures IstCalendarDate(Some(t)) == Some(d) <==>
            && -8_640_000_000_000_000 <= t + 19_800_000 <= 8_640_000_000_000_000
            && OnCalendar(d)
            && var n := FirstOfMonth(d.year, d.month) + d.day - 1;
               n * 86_400_000 <= t + 19_800_000 < (n + 1) * 86_400_000
  {
    hide FirstOfMonth, DateFromDay;
    var n := (t + 19_800_000) / 86_400_000;
    DateByTable(n, d);
    if OnCalendar(d) {
      var u := FirstOfMonth(d.year, d.month) + d.day - 1;
      if u * 86_400_000 <= t + 19_800_000 < (u + 1) * 86_400_000 {
        DayOfTime(u, t + 19_800_000 - u * 86_400_000);
      }
    }
  }

  /** A slot's instant, in milliseconds, by formula and table; day numbers from -719528 up to
      -683004 are those of the years 0 to 99. */
  lemma SlotByTable(d: Date, k: int, m: int)
    requires OnCalendar(d) && !(0 <= d.year <= 99)
    requires !(-719_528 <= FirstOfMonth(d.year, d.month) + d.day - 1 + k <= -683_004)
    ensures var midnight := (FirstOfMonth(d.year, d.month) + d.day - 1 + k) * 86_400_000;
            var t := midnight + (if m >= 0 || m % 60 == 0 then m else m - 60) * 60_000 - 19_800_000;
            IstSlotInstant(d, k, m) ==
            if && -8_640_000_000_000_000 <= midnight <= 8_640_000_000_000_000
               && -8_640_000_000_000_000 <= t
               && t + 19_800_000 <= 8_640_000_000_000_000
            then Some(t) else None
  {
    hide FirstOfMonth, DateFromDay, DayFromDate, IstSlotInstant, AddDays, ValidDate, OnCalendar;
    CalendarByTable(d);
    NotMisread(d, k);
    SlotInstantExact(d, k, m);
  }

  lemma NotMisread(d: Date, k: int)
    requires ValidDate(d)
    ensures Remapped(AddDays(d, k)) <==> -719_528 <= DayFromDate(d) + k <= -683_004
  {
    hide DayFromYear, DaysBeforeMonth, DaysInMonth, DaysInYear, AddDays;
    var e := AddDays(d, k);
    AddDaysNumber(d, k);
    YearLength(e.year);
    InYear(e);
    FirstCentury(e.year, DayFromDate(e));
  }

  lemma FirstCentury(y: int, n: int)
    requires DayFromYear(y) <= n < DayFromYear(y + 1)
    ensures 0 <= y <= 99 <==> -719_528 <= n <= -683_004
  {
    hide DayFromYear;
    CenturyDays();
    if y < 0 {
      YearsIncrease(y + 1, 0);
    } else if y <= 99 {
      YearsIncrease(0, y);
      YearsIncrease(y + 1, 100);
    } else {
      YearsIncrease(100, y);
    }
  }

  lemma CenturyDays()
    ensures DayFromYear(0) == -719_528 && DayFromYear(100) == -683_003
  {
    hide DayFromYear;
    FormulaHolds(0);
    FormulaHolds(100);
  }

  /** A date in one of the years 0 to 99 is taken for the one 1900 years later. */
  lemma YearMisread(d: Date, k: int, m: int)
    requires Remapped(d)
    ensures IstSlotInstant(d, k, m) == IstSlotInstant(d.(year := 1900 + d.year), k, m)
  {
    hide MakeDay;
  }

  /** Days and minutes add up exactly if and only if the minute is not negative or whole hours. */
  lemma SlotOffsetsExact(d: Date, k: int, m: int)
    requires ValidDate(d) && !Remapped(d) && !Remapped(AddDays(d, k))
    ensures var midnight, slot := IstSlotInstant(d, 0, 0), IstSlotInstant(d, k, m);
            midnight.Some? && slot.Some? ==>
              (slot.value == midnight.value + k * MS_PER_DAY + m * MS_PER_MINUTE <==> m >= 0 || m % 60 == 0)
  {
    hide DayFromDate, IstSlotInstant;
    assert AddDays(d, 0) == d;
    hide AddDays;
    SlotInstantExact(d, 0, 0);
    SlotInstantExact(d, k, m);
  }

  /** Going j days and then k days is going j + k days. */
  lemma SlotOffsetsCompose(d: Date, j: int, k: int, m: int)
    requires ValidDate(d) && !Remapped(d) && !Remapped(AddDays(d, j))
    ensures IstSlotInstant(AddDays(d, j), k, m) == IstSlotInstant(d, j + k, m)
  {
    hide DayFromYear, DaysBeforeMonth, DateFromDay, DayFromDate, IstSlotInstant, AddDays;
    SlotInstantComputed(d, j + k, m);
    SlotInstantComputed(AddDays(d, j), k, m);
    AddDaysNumber(d, j);
  }

  /** The slot's IST calendar date is the date k days on, across months, years and leap
      days, exactly if neither date's year is misread and the times are in range. */
  lemma SlotDateRoundTrip(d: Date, k: int, m: int)
    requires ValidDate(d) && 0 <= m < 1440
    ensures IstCalendarDate(IstSlotInstant(d, k, m)) == Some(AddDays(d, k)) <==>
            !Remapped(d) && !Remapped(AddDays(d, k)) && InRange(d, k, m)
  {
    hide DayFromYear, DaysBeforeMonth, DateFromDay, DayFromDate, AddDays, DayRead, IstSlotInstant;
    SlotInstantComputed(d, k, m);
    AddedDate(d, k);
    AddDaysNumber(d, k);
    var n := DayRead(d) + k;
    var c := DateFromDay(n);
    DayOfDateOfDay(n);
    DayOfTime(DayRead(c), m * MS_PER_MINUTE);
    DayOfDateOfDay(DayRead(c));
    if DateFromDay(DayRead(c)) == AddDays(d, k) {
      assert DayRead(c) == DayFromDate(d) + k;
      assert n <= DayRead(c);
      assert !Remapped(d) && c == AddDays(d, k);
    }
  }

  /** The minute of the IST day that an instant lies in. */
  function IstMinute(t: int): (m: int)
    ensures 0 <= m < 1440
  {
    (t + IST_OFFSET) % MS_PER_DAY / MS_PER_MINUTE
  }

  /** The way back: date and minute of an instant lead to the start of that minute, or are
      invalid exactly if some time is out of range. */
  lemma InstantRoundTrip(t: int)
    requires IstCalendarDate(Some(t)).Some? && !Remapped(IstCalendarDate(Some(t)).value)
    ensures var (d, m) := (IstCalendarDate(Some(t)).value, IstMinute(t));
            && ValidDate(d)
            && IstSlotInstant(d, 0, m) == if InRange(d, 0, m) then Some(t - t % MS_PER_MINUTE) else None
  {
    hide DayFromYear, DaysBeforeMonth, DateFromDay, DayFromDate, IstSlotInstant, AddDays;
    var n := (t + IST_OFFSET) / MS_PER_DAY;
    var d := DateFromDay(n);
    DayOfDateOfDay(n);
    assert AddDays(d, 0) == d by { AddedDate(d, 0); }
    SlotInstantExact(d, 0, IstMinute(t));
    MinuteStart(t);
  }

  lemma MinuteStart(t: int)
    ensures (t + IST_OFFSET) / MS_PER_DAY * MS_PER_DAY + IstMinute(t) * MS_PER_MINUTE - IST_OFFSET == t - t % MS_PER_MINUTE
  {
    WholeMinutes(t + IST_OFFSET);
    RemainderUnique(t + IST_OFFSET, t / MS_PER_MINUTE + 330, t % MS_PER_MINUTE);
  }

  lemma WholeMinutes(u: int)
    ensures u / MS_PER_DAY * MS_PER_DAY + u % MS_PER_DAY / MS_PER_MINUTE * MS_PER_MINUTE == u - u % MS_PER_MINUTE
  {
    var days, rest := u / MS_PER_DAY, u % MS_PER_DAY;
    RemainderUnique(u, days * 1440 + rest / MS_PER_MINUTE, rest % MS_PER_MINUTE);
  }

  lemma RemainderUnique(u: int, minutes: int, rest: int)
    requires 0 <= rest < MS_PER_MINUTE && u == minutes * MS_PER_MINUTE + rest
    ensures u % MS_PER_MINUTE == rest
  {
    var q := u / MS_PER_MINUTE;
    assert u == q * MS_PER_MINUTE + u % MS_PER_MINUTE;
    assert -MS_PER_MINUTE < (q - minutes) * MS_PER_MINUTE < MS_PER_MINUTE;
  }

  /** Minute -1 of 2 January 1970 is 22:59 of the day before, not 23:59. */
  lemma MinuteBeforeMidnight()
    ensures var d := Date(1970, 0, 2);
            && IstSlotInstant(d, 0, -1) == Some(IstSlotInstant(d, 0, 0).value - 61 * MS_PER_MINUTE)
            && IstSlotInstant(d, 0, 0) == Some(MS_PER_DAY - IST_OFFSET)
  {
    var d := Date(1970, 0, 2);
    assert DayFromDate(d) == 1 && AddDays(d, 0) == d;
    hide DayFromDate, IstSlotInstant, AddDays;
    SlotInstantExact(d, 0, 0);
    SlotInstantExact(d, 0, -1);
  }

  /** The year 50 is read as 1950. */
  lemma YearFiftyMisread()
    ensures IstCalendarDate(IstSlotInstant(Date(50, 0, 1), 0, 0)) != Some(Date(50, 0, 1))
  {
    var d := Date(50, 0, 1);
    assert AddDays(d, 0) == d;
    hide IstSlotInstant, IstCalendarDate, AddDays, InRange;
    SlotDateRoundTrip(d, 0, 0);
  }

  // ----- the two slots of a day -----

  datatype Slot = Slot(name: string, startMinute: int, endMinute: int)

  const DEFAULT_PREORDER_SLOTS: seq<Slot> := [Slot("Morning", 390, 570), Slot("Evening", 960, 1230)]

  /** Slots of any two days never overlap and follow each other in order: an earlier slot has
      ended strictly before a later one starts, and each ends strictly after its own start. */
  lemma SlotsOrdered(d: Date, i: int, a: nat, j: int, b: nat)
    requires ValidDate(d) && a < 2 && b < 2 && (i < j || (i == j && a < b))
    requires !Remapped(d) && !Remapped(AddDays(d, i)) && !Remapped(AddDays(d, j))
    ensures var s, t := DEFAULT_PREORDER_SLOTS[a], DEFAULT_PREORDER_SLOTS[b];
            var start, end := IstSlotInstant(d, i, s.startMinute), IstSlotInstant(d, i, s.endMinute);
            var later := IstSlotInstant(d, j, t.startMinute);
            start.Some? && end.Some? && later.Some? ==> start.value < end.value < later.value
  {
    hide DayFromDate, IstSlotInstant, AddDays;
    var s, t := DEFAULT_PREORDER_SLOTS[a], DEFAULT_PREORDER_SLOTS[b];
    SlotInstantExact(d, i, s.startMinute);
    SlotInstantExact(d, i, s.endMinute);
    SlotInstantExact(d, j, t.startMinute);
  }

  /** On 1 January 2026: 01:00 to 04:00 and 10:30 to 15:00 UTC. */
  lemma SlotsOfNewYear()
    ensures var d, morning, evening := Date(2026, 0, 1), DEFAULT_PREORDER_SLOTS[0], DEFAULT_PREORDER_SLOTS[1];
            && IstSlotInstant(d, 0, morning.startMinute) == Some(1_767_229_200_000)
            && IstSlotInstant(d, 0, morning.endMinute) == Some(1_767_240_000_000)
            && IstSlotInstant(d, 0, evening.startMinute) == Some(1_767_263_400_000)
            && IstSlotInstant(d, 0, evening.endMinute) == Some(1_767_279_600_000)
  {
    hide IstSlotInstant;
    var d := Date(2026, 0, 1);
    assert FirstOfMonth(2026, 0) == 20_454 && FirstOfMonth(2026, 1) == 20_485;
    hide FirstOfMonth;
    SlotByTable(d, 0, 390);
    SlotByTable(d, 0, 570);
    SlotByTable(d, 0, 960);
    SlotByTable(d, 0, 1230);
  }
}
