/** Calendar time: seconds since 1970 and dates. */
module Calendar {
  import opened Basics

  const EPOCH := 1970
  const UNSIGNED_SPAN := 0x1_0000_0000
  const DAYS_OF_MONTH: seq<nat> := [31, 28, 31, 30, 31, 30, 31, 31, 30, 31, 30, 31]

  function IsLeapYear(year: nat): bool {
    if year % 100 == 0 then year % 400 == 0 else year % 4 == 0
  }

  function DaysOfYear(year: nat): nat { if IsLeapYear(year) then 366 else 365 }

  /** Months are counted from 0. */
  function DaysOfMonth(month: nat, year: nat): (n: nat)
    requires month < 12
    ensures 28 <= n <= 31
  {
    if month == 1 && IsLeapYear(year) then 29 else DAYS_OF_MONTH[month]
  }

  datatype Date = Date(year: nat, month: nat, day: nat)

  predicate ValidDate(d: Date) {
    d.month < 12 && 1 <= d.day <= DaysOfMonth(d.month, d.year)
  }

  // ---------- counting days ----------

  /** The days of the years from 1970 on. */
  function DaysBeforeYear(year: nat): nat {
    if year <= EPOCH then 0 else DaysBeforeYear(year - 1) + DaysOfYear(year - 1)
  }

  function DaysBeforeMonth(month: nat, year: nat): nat
    requires month <= 12
  {
    if month == 0 then 0 else DaysBeforeMonth(month - 1, year) + DaysOfMonth(month - 1, year)
  }

  /** The days from the first of January 1970 to a date. */
  function DayNumber(d: Date): nat
    requires ValidDate(d)
  {
    DaysBeforeYear(d.year) + DaysBeforeMonth(d.month, d.year) + d.day - 1
  }

  /** Twelve months are a year. */
  lemma MonthsOfYear(year: nat)
    ensures DaysBeforeMonth(12, year) == DaysOfYear(year)
  {
    MonthStep(1, year);
    MonthStep(2, year);
    MonthStep(3, year);
    MonthStep(4, year);
    MonthStep(5, year);
    MonthStep(6, year);
    MonthStep(7, year);
    MonthStep(8, year);
    MonthStep(9, year);
    MonthStep(10, year);
    MonthStep(11, year);
    MonthStep(12, year);
  }

  lemma MonthStep(month: nat, year: nat)
    requires 1 <= month <= 12
    ensures DaysBeforeMonth(month, year) == DaysBeforeMonth(month - 1, year) + DaysOfMonth(month - 1, year)
  {
  }

  /** The Gregorian rule in closed form: a leap day every 4 years, except every 100,
      but every 400. */
  function LeapYearsBefore(year: nat): int
    requires 1 <= year
  {
    (year - 1) / 4 - (year - 1) / 100 + (year - 1) / 400
  }

  lemma {:induction false} YearsInClosedForm(year: nat)
    requires EPOCH <= year
    ensures DaysBeforeYear(year) == 365 * (year - 1970) + (year - 1) / 4 - (year - 1) / 100 + (year - 1) / 400 - 477
    decreases year
  {
    if year > EPOCH {
      YearsInClosedForm(year - 1);
      LeapStep(year - 1);
    }
  }

  lemma LeapStep(year: nat)
    requires 1 <= year
    ensures LeapYearsBefore(year + 1) == LeapYearsBefore(year) + if IsLeapYear(year) then 1 else 0
  {
    MultipleStep(year, 4);
    MultipleStep(year, 100);
    MultipleStep(year, 400);
    Multiples(year, year / 400);
    Multiples(year, year / 100);
  }

  lemma Multiples(n: nat, q: nat)
    ensures n == 400 * q ==> n % 100 == 0
    ensures n == 100 * q ==> n % 4 == 0
  {
    if n == 400 * q {
      Quotient(n, 100, 4 * q);
    }
    if n == 100 * q {
      Quotient(n, 4, 25 * q);
    }
  }

  lemma MultipleStep(n: nat, k: nat)
    requires 1 <= n && 0 < k
    ensures n / k == (n - 1) / k + if n % k == 0 then 1 else 0
  {
    var q, r := (n - 1) / k, (n - 1) % k;
    assert n == k * q + (r + 1);
    if r + 1 == k {
      assert n == k * (q + 1);
      Quotient(n, k, q + 1);
    } else {
      Quotient(n, k, q);
    }
  }

  lemma LeapByNumbers(year: nat)
    ensures IsLeapYear(year) <==> year % 4 == 0 && (year % 100 != 0 || year % 400 == 0)
  {
    Multiples(year, year / 100);
    Multiples(year, year / 400);
  }

  /** The length of a month, as far as the closed form tells: from March on, five months take
      153 days. */
  lemma MonthByNumbers(month: nat, year: nat)
    requires month < 12
    ensures DaysOfMonth(month, year) ==
            if month == 0 then 31
            else if month == 1 then
              if year % 4 == 0 && (year % 100 != 0 || year % 400 == 0) then 29 else 28
            else (153 * (month - 1) + 2) / 5 - (153 * (month - 2) + 2) / 5
  {
    LeapByNumbers(year);
    hide IsLeapYear;
  }

  /** The months in closed form. */
  lemma {:induction false} MonthsInClosedForm(month: nat, year: nat)
    requires 1 <= month <= 12
    ensures DaysBeforeMonth(month, year) ==
            if month == 1 then 31
            else 59 + (if year % 4 == 0 && (year % 100 != 0 || year % 400 == 0) then 1 else 0)
                 + (153 * (month - 2) + 2) / 5
    decreases month
  {
    MonthByNumbers(month - 1, year);
    MonthStep(month, year);
    if month == 1 {
      assert DaysBeforeMonth(0, year) == 0;
    } else {
      MonthsInClosedForm(month - 1, year);
    }
    hide DaysBeforeMonth, DaysOfMonth;
  }

  /** The number of a day without tables: years, months and day. */
  lemma DayInClosedForm(d: Date)
    requires ValidDate(d) && 1970 <= d.year
    ensures var y, m := d.year, d.month;
            DayNumber(d) == 365 * (y - 1970) + (y - 1) / 4 - (y - 1) / 100 + (y - 1) / 400 - 477
                            + (if m == 0 then 0
                               else if m == 1 then 31
                               else 59 + (if y % 4 == 0 && (y % 100 != 0 || y % 400 == 0) then 1 else 0)
                                    + (153 * (m - 2) + 2) / 5)
                            + d.day - 1
  {
    YearsInClosedForm(d.year);
    if d.month > 0 {
      MonthsInClosedForm(d.month, d.year);
    }
    hide IsLeapYear, DaysOfMonth, DaysBeforeYear;
  }

  /** The dates there are, without the table. */
  lemma DatesByNumbers(d: Date)
    ensures ValidDate(d) <==>
            && d.month < 12 && 1 <= d.day
            && d.day <= (if d.month == 0 then 31
                         else if d.month == 1 then
                           if d.year % 4 == 0 && (d.year % 100 != 0 || d.year % 400 == 0) then 29 else 28
                         else (153 * (d.month - 1) + 2) / 5 - (153 * (d.month - 2) + 2) / 5)
  {
    if d.month < 12 {
      MonthByNumbers(d.month, d.year);
    }
    hide DaysOfMonth;
  }

  // ---------- the order of dates ----------

  lemma {:induction false} YearsGrow(y: nat, z: nat)
    requires EPOCH <= y < z
    ensures DaysBeforeYear(y) + DaysOfYear(y) <= DaysBeforeYear(z)
    decreases z
  {
    if y + 1 < z {
      YearsGrow(y, z - 1);
    }
  }

  lemma {:induction false} MonthsGrow(m: nat, n: nat, year: nat)
    requires m < n <= 12
    ensures DaysBeforeMonth(m, year) + DaysOfMonth(m, year) <= DaysBeforeMonth(n, year)
    decreases n
  {
    if m + 1 < n {
      MonthsGrow(m, n - 1, year);
    }
  }

  /** A date is inside its year. */
  lemma InsideYear(d: Date)
    requires ValidDate(d)
    ensures DaysBeforeMonth(d.month, d.year) + d.day <= DaysOfYear(d.year)
  {
    MonthsGrow(d.month, 12, d.year);
    MonthsOfYear(d.year);
  }

  predicate Earlier(d: Date, e: Date) {
    d.year < e.year || (d.year == e.year && (d.month < e.month || (d.month == e.month && d.day < e.day)))
  }

  /** Days are counted in the order of the dates, so no two dates share a number. */
  lemma EarlierIsLess(d: Date, e: Date)
    requires ValidDate(d) && ValidDate(e) && EPOCH <= d.year && EPOCH <= e.year
    ensures DayNumber(d) < DayNumber(e) <==> Earlier(d, e)
    ensures DayNumber(d) == DayNumber(e) <==> d == e
  {
    if Earlier(d, e) {
      EarlierIsLessOnly(d, e);
    } else if Earlier(e, d) {
      EarlierIsLessOnly(e, d);
    }
  }

  lemma EarlierIsLessOnly(d: Date, e: Date)
    requires ValidDate(d) && ValidDate(e) && EPOCH <= d.year && EPOCH <= e.year && Earlier(d, e)
    ensures DayNumber(d) < DayNumber(e)
  {
    if d.year < e.year {
      InsideYear(d);
      YearsGrow(d.year, e.year);
    } else if d.month < e.month {
      MonthsGrow(d.month, e.month, d.year);
    }
  }

  /** The next day on the calendar. */
  function NextDay(d: Date): (e: Date)
    requires ValidDate(d)
    ensures ValidDate(e)
  {
    if d.day < DaysOfMonth(d.month, d.year) then d.(day := d.day + 1)
    else if d.month < 11 then Date(d.year, d.month + 1, 1)
    else Date(d.year + 1, 0, 1)
  }

  /** Counting agrees with turning the calendar's pages. */
  lemma NextDayIsNext(d: Date)
    requires ValidDate(d) && EPOCH <= d.year
    ensures DayNumber(NextDay(d)) == DayNumber(d) + 1
  {
    if d.day == DaysOfMonth(d.month, d.year) && d.month == 11 {
      MonthsOfYear(d.year);
      MonthStep(12, d.year);
    }
  }

  /** So 24 hours later it is the next day. */
  lemma DayAfter(d: Date, e: Date)
    requires ValidDate(d) && ValidDate(e) && EPOCH <= d.year && EPOCH <= e.year
    ensures DayNumber(e) == DayNumber(d) + 1 <==> e == NextDay(d)
  {
    NextDayIsNext(d);
    EarlierIsLess(e, NextDay(d));
  }

  // ---------- years that do not fit in 32 bits ----------

  const MINUTE := 60
  const HOUR := 60 * MINUTE
  const DAY := 24 * HOUR

  /** The first second of the year 2^32. */
  function SecondsLimit(): nat { DAY * DaysBeforeYear(UNSIGNED_SPAN) }

  lemma LimitInDays()
    ensures DaysBeforeYear(0x1_0000_0000) == 1_568_703_873_082
    ensures SecondsLimit() == 86400 * 1_568_703_873_082
  {
    YearsInClosedForm(UNSIGNED_SPAN);
    hide DaysBeforeYear;
  }

  lemma BelowLimit(d: Date)
    requires ValidDate(d) && d.year < UNSIGNED_SPAN
    ensures DayNumber(d) < DaysBeforeYear(UNSIGNED_SPAN)
  {
    InsideYear(d);
    if EPOCH <= d.year {
      YearsGrow(d.year, UNSIGNED_SPAN);
    } else {
      YearsGrow(EPOCH, UNSIGNED_SPAN);
    }
  }

  /** The value of an unsigned 32-bit expression. */
  function Unsigned(x: int): (r: nat)
    ensures r < UNSIGNED_SPAN && (0 <= x < UNSIGNED_SPAN ==> r == x)
  {
    x % UNSIGNED_SPAN
  }

  class Time {
    var seconds: nat
    var minutes: nat
    var hours: nat
    var monthDay: nat
    var month: nat
    /** Years since 1900, in 32 bits. */
    var year: nat
    var weekDay: nat

    ghost function Today(): Date
      reads this
    {
      Date(Unsigned(year + 1900), month, monthDay)
    }

    ghost predicate Valid()
      reads this
    {
      && seconds < 60 && minutes < 60 && hours < 24 && weekDay < 7
      && year < UNSIGNED_SPAN && ValidDate(Today())
    }

    /** The seconds since 1970. */
    ghost function Value(): nat
      requires Valid()
      reads this
    {
      DayNumber(Today()) * DAY + hours * HOUR + minutes * MINUTE + seconds
    }

    /** The value by the fields. */
    lemma ValueByFields()
      requires Valid()
      ensures month < 12 && Today() == Date((year + 1900) % 0x1_0000_0000, month, monthDay)
      ensures Value() == ((DayNumber(Today()) * 24 + hours) * 60 + minutes) * 60 + seconds
    {
      hide DayNumber;
    }

    constructor ()
      ensures Valid() && Value() == 0 && weekDay == 4
    {
      seconds, minutes, hours := 0, 0, 0;
      monthDay, month, year, weekDay := 1, 0, 70, 4;
    }

    method SetTimeOfDay(time: nat) returns (days: nat)
      modifies this`seconds, this`minutes, this`hours
      ensures seconds < 60 && minutes < 60 && hours < 24
      ensures days == time / DAY && time == days * DAY + hours * HOUR + minutes * MINUTE + seconds
    {
      seconds := time % 60;
      days := time / 60;
      minutes := days % 60;
      days := days / 60;
      hours := days % 24;
      days := days / 24;
      TimeOfDay(time);
    }

    /** The date and time of a number of seconds; from the year 2^32 on the year wraps
        and the time is lost. */
    method Set(time: nat)
      modifies this
      ensures Valid()
      ensures Value() == time <==> time < SecondsLimit()
      ensures weekDay == (time / 86400 + 4) % 7
    {
      hide DaysBeforeYear, DaysBeforeMonth, DaysOfMonth, IsLeapYear;
      var days := SetTimeOfDay(time);
      weekDay := (days + 4) % 7;
      var nYear, dayOfYear, wrapped := FindYear(days);
      year := Unsigned(nYear as int - 1900);
      month, monthDay := FindMonth(nYear, dayOfYear);
      YearField(nYear);
      assert ValidDate(Today());
      BelowLimit(Today());
    }

    /** Whether the hour, minute and second exist. */
    method SetTime(nHours: nat, nMinutes: nat, nSeconds: nat) returns (ok: bool)
      requires Valid()
      modifies this`hours, this`minutes, this`seconds
      ensures Valid() && (ok <==> nHours < 24 && nMinutes < 60 && nSeconds < 60)
      ensures Value() ==
                if ok then DayNumber(Today()) * DAY + nHours * HOUR + nMinutes * MINUTE + nSeconds else old(Value())
    {
      if nSeconds > 59 || nMinutes > 59 || nHours > 23 {
        return false;
      }
      seconds, minutes, hours := nSeconds, nMinutes, nHours;
      return true;
    }

    /** Months are counted from 1 here. The day count has 32 bits. */
    method SetDate(nMonthDay: nat, nMonth: nat, nYear: nat) returns (ok: bool)
      requires Valid() && nMonthDay < UNSIGNED_SPAN && nMonth < UNSIGNED_SPAN && nYear < UNSIGNED_SPAN
      modifies this`monthDay, this`month, this`year, this`weekDay
      ensures Valid()
      ensures ok <==> 1970 <= nYear && 1 <= nMonth && ValidDate(Date(nYear, nMonth - 1, nMonthDay))
      ensures ok ==> Today() == Date(nYear, nMonth - 1, nMonthDay)
                     && weekDay == (DayNumber(Today()) + 4) % 0x1_0000_0000 % 7
      ensures !ok ==> Today() == old(Today()) && weekDay == old(weekDay)
    {
      if nYear < EPOCH || !(1 <= nMonth <= 12) || !(1 <= nMonthDay <= DaysOfMonth(nMonth - 1, nYear)) {
        return false;
      }
      monthDay := nMonthDay;
      month := nMonth - 1;
      year := Unsigned(nYear - 1900);
      YearField(nYear);
      ghost var d := Date(nYear, nMonth - 1, nMonthDay);
      var totalDays := CountDays(Date(nYear, nMonth - 1, nMonthDay));
      UnsignedSum(DayNumber(d), 4);
      weekDay := Unsigned(totalDays + 4) % 7;
      return true;
    }

    method Get() returns (result: nat)
      requires Valid()
      ensures result == Value()
    {
      result := 0;
      var thisYear := Unsigned(year + 1900);
      var nYear := EPOCH;
      while nYear < thisYear
        invariant EPOCH <= nYear && (nYear <= thisYear || nYear == EPOCH)
        invariant result == DaysBeforeYear(nYear)
      {
        result := result + DaysOfYear(nYear);
        nYear := nYear + 1;
      }
      var nMonth := 0;
      while nMonth < month
        invariant nMonth <= month && result == DaysBeforeYear(thisYear) + DaysBeforeMonth(nMonth, thisYear)
      {
        result := result + DaysOfMonth(nMonth, thisYear);
        nMonth := nMonth + 1;
      }
      result := result + monthDay - 1;
      result := result * 24;
      result := result + hours;
      result := result * 60;
      result := result + minutes;
      result := result * 60;
      result := result + seconds;
    }
  }

  /** The number of a date's day, in 32 bits: first the day, then the months and the
      years before, backwards. */
  method CountDays(d: Date) returns (totalDays: nat)
    requires ValidDate(d) && EPOCH <= d.year
    ensures totalDays == Unsigned(DayNumber(d))
  {
    hide DaysOfMonth, IsLeapYear, Unsigned;
    totalDays := d.day - 1;
    UnsignedDay(d);
    ghost var days: nat := d.day - 1;
    var m: nat := d.month;
    while m > 0
      invariant m <= d.month && totalDays == Unsigned(days)
      invariant days + DaysBeforeMonth(m, d.year) == d.day - 1 + DaysBeforeMonth(d.month, d.year)
    {
      MonthStep(m, d.year);
      UnsignedSum(days, DaysOfMonth(m - 1, d.year));
      totalDays := Unsigned(totalDays + DaysOfMonth(m - 1, d.year));
      days := days + DaysOfMonth(m - 1, d.year);
      m := m - 1;
    }
    var y: nat := d.year - 1;
    while y >= EPOCH
      invariant EPOCH - 1 <= y < d.year && totalDays == Unsigned(days)
      invariant days + DaysBeforeYear(y + 1) == DayNumber(d)
    {
      UnsignedSum(days, DaysOfYear(y));
      totalDays := Unsigned(totalDays + DaysOfYear(y));
      days := days + DaysOfYear(y);
      y := y - 1;
    }
  }

  lemma UnsignedDay(d: Date)
    requires ValidDate(d)
    ensures Unsigned(d.day - 1) == d.day - 1
  {
  }

  lemma UnsignedSum(a: nat, b: nat)
    ensures Unsigned(Unsigned(a) + b) == Unsigned(a + b)
  {
  }

  /** The year a day is in, and its place in the year. */
  method FindYear(days: nat) returns (nYear: nat, rest: nat, ghost wrapped: bool)
    ensures nYear < UNSIGNED_SPAN && rest < DaysOfYear(nYear)
    ensures wrapped <==> DaysBeforeYear(UNSIGNED_SPAN) <= days
    ensures !wrapped ==> EPOCH <= nYear && DaysBeforeYear(nYear) + rest == days
  {
    nYear, rest, wrapped := EPOCH, days, false;
    while true
      invariant nYear < UNSIGNED_SPAN
      invariant !wrapped ==> EPOCH <= nYear && rest + DaysBeforeYear(nYear) == days
      invariant wrapped ==> days >= DaysBeforeYear(UNSIGNED_SPAN)
      decreases rest
    {
      var daysOfYear := DaysOfYear(nYear);
      if rest < daysOfYear {
        break;
      }
      rest := rest - daysOfYear;
      wrapped := wrapped || nYear + 1 == UNSIGNED_SPAN;
      nYear := Unsigned(nYear + 1);
    }
    if !wrapped {
      YearsGrow(nYear, UNSIGNED_SPAN);
    }
  }

  /** The month a day of the year is in, and its place in the month. */
  method FindMonth(nYear: nat, dayOfYear: nat) returns (nMonth: nat, monthDay: nat)
    requires dayOfYear < DaysOfYear(nYear)
    ensures nMonth < 12 && 1 <= monthDay <= DaysOfMonth(nMonth, nYear)
    ensures DaysBeforeMonth(nMonth, nYear) + monthDay == dayOfYear + 1
  {
    MonthsOfYear(nYear);
    var rest: nat := dayOfYear;
    nMonth := 0;
    while true
      invariant nMonth < 12 && rest + DaysBeforeMonth(nMonth, nYear) == dayOfYear < DaysBeforeMonth(12, nYear)
      decreases rest
    {
      var daysOfMonth := DaysOfMonth(nMonth, nYear);
      if rest < daysOfMonth {
        break;
      }
      MonthStep(nMonth + 1, nYear);
      rest := rest - daysOfMonth;
      nMonth := nMonth + 1;
    }
    monthDay := rest + 1;
  }

  lemma TimeOfDay(time: nat)
    ensures time / 60 / 60 / 24 == time / DAY
    ensures time == time / DAY * DAY + time / 60 / 60 % 24 * HOUR + time / 60 % 60 * MINUTE + time % 60
  {
  }

  lemma YearField(nYear: nat)
    requires nYear < UNSIGNED_SPAN
    ensures Unsigned(Unsigned(nYear - 1900) + 1900) == nYear
  {
  }

  /** The two ways to the day of the week agree exactly if the 32-bit sum of day count
      and 4 wraps a multiple of 7 times, in particular if it does not wrap. */
  lemma WeekDaysAgree(d: Date)
    requires ValidDate(d)
    ensures Unsigned(DayNumber(d) + 4) % 7 == (DayNumber(d) + 4) % 7 <==> (DayNumber(d) + 4) / UNSIGNED_SPAN % 7 == 0
  {
    WrapsAndWeeks(DayNumber(d) + 4);
  }

  /** 2^32 is 4 more than a multiple of 7. */
  lemma WrapsAndWeeks(n: nat)
    ensures Unsigned(n) % 7 == n % 7 <==> n / UNSIGNED_SPAN % 7 == 0
  {
    var q, r := n / UNSIGNED_SPAN, n % UNSIGNED_SPAN;
    assert n == 7 * (613566756 * q) + 4 * q + r;
    WeeksOff(n, q, r);
  }

  lemma WeeksOff(n: nat, q: nat, r: nat)
    requires n == 7 * (613566756 * q) + 4 * q + r
    ensures r % 7 == n % 7 <==> q % 7 == 0
  {
  }

  /** The first date for which they differ: its day number still fits, but 4 more does
      not. SetDate says Sunday, and the day is a Thursday. */
  lemma FirstWrongWeekDay()
    ensures var d := Date(11761191, 0, 17);
            && DayNumber(d) == UNSIGNED_SPAN - 4
            && Unsigned(DayNumber(d) + 4) % 7 == 0 && (DayNumber(d) + 4) % 7 == 4
  {
    hide DaysBeforeYear;
    DaysUntilThen();
    assert DaysBeforeMonth(0, 11761191) == 0;
  }

  lemma DaysUntilThen()
    ensures DaysBeforeYear(11761191) == UNSIGNED_SPAN - 20
  {
    hide DaysBeforeYear;
    YearsInClosedForm(11761191);
  }
}
