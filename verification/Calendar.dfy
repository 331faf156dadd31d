// From an RFC 3339 time stamp to the number yyyymmdd that names a commit's date.
module Calendar {
  datatype Date = Date(year: int, month: int, day: int)

  predicate IsLeap(y: int) {
    y % 4 == 0 && (y % 100 != 0 || y % 400 == 0)
  }

  function DaysInMonth(y: int, m: int): int {
    if m == 2 then if IsLeap(y) then 29 else 28
    else if m == 4 || m == 6 || m == 9 || m == 11 then 30
    else 31
  }

  predicate ValidDate(d: Date) {
    1 <= d.month <= 12 && 1 <= d.day <= DaysInMonth(d.year, d.month)
  }

  // ---------- The civil calendar, day by day ----------

  function NextDay(d: Date): (r: Date)
    requires ValidDate(d)
    ensures ValidDate(r)
  {
    if d.day < DaysInMonth(d.year, d.month) then d.(day := d.day + 1)
    else if d.month < 12 then Date(d.year, d.month + 1, 1)
    else Date(d.year + 1, 1, 1)
  }

  function PreviousDay(d: Date): (r: Date)
    requires ValidDate(d)
    ensures ValidDate(r) && NextDay(r) == d
  {
    if d.day > 1 then d.(day := d.day - 1)
    else if d.month > 1 then Date(d.year, d.month - 1, DaysInMonth(d.year, d.month - 1))
    else Date(d.year - 1, 12, 31)
  }

  const EPOCH := Date(1970, 1, 1)

  // std::chrono::year_month_day of a number of days since the epoch.
  function Civil(n: int): (d: Date)
    ensures ValidDate(d)
    decreases if n < 0 then -n else n
  {
    if n == 0 then EPOCH
    else if n > 0 then NextDay(Civil(n - 1))
    else PreviousDay(Civil(n + 1))
  }

  // ---------- The same calendar by counting ----------

  function LeapDaysBefore(y: int): int {
    (y - 1) / 4 - (y - 1) / 100 + (y - 1) / 400
  }

  function DaysBeforeYear(y: int): int {
    365 * (y - 1970) + LeapDaysBefore(y) - LeapDaysBefore(1970)
  }

  function DaysBeforeMonth(y: int, m: int): int
    requires 1 <= m <= 12
  {
    if m == 1 then 0 else DaysBeforeMonth(y, m - 1) + DaysInMonth(y, m - 1)
  }

  function DayNumber(d: Date): int
    requires ValidDate(d)
  {
    DaysBeforeYear(d.year) + DaysBeforeMonth(d.year, d.month) + d.day - 1
  }

  lemma YearLength(y: int)
    ensures DaysBeforeYear(y + 1) == DaysBeforeYear(y) + if IsLeap(y) then 366 else 365
  {
    hide LeapDaysBefore, IsLeap;
    LeapSteps(y);
  }

  lemma Multiples(y: int)
    ensures y % 400 == 0 ==> y % 100 == 0
    ensures y % 100 == 0 ==> y % 4 == 0
  {
    assert y % 100 == 0 ==> y == 4 * (25 * (y / 100));
    assert y % 400 == 0 ==> y == 100 * (4 * (y / 400));
  }

  lemma LeapSteps(y: int)
    ensures LeapDaysBefore(y + 1) == LeapDaysBefore(y) + if IsLeap(y) then 1 else 0
  {
    Multiples(y);
    LeapStep(y, 4);
    LeapStep(y, 100);
    LeapStep(y, 400);
  }

  lemma LeapStep(y: int, k: int)
    requires k == 4 || k == 100 || k == 400
    ensures y / k == (y - 1) / k + if y % k == 0 then 1 else 0
  {
  }

  lemma MonthsOfYear(y: int)
    ensures DaysBeforeMonth(y, 12) + 31 == if IsLeap(y) then 366 else 365
  {
    assert DaysBeforeMonth(y, 2) == 31;
    assert DaysBeforeMonth(y, 3) == if IsLeap(y) then 60 else 59;
    assert DaysBeforeMonth(y, 5) == DaysBeforeMonth(y, 3) + 61;
    assert DaysBeforeMonth(y, 7) == DaysBeforeMonth(y, 5) + 61;
    assert DaysBeforeMonth(y, 9) == DaysBeforeMonth(y, 7) + 62;
    assert DaysBeforeMonth(y, 11) == DaysBeforeMonth(y, 9) + 61;
  }

  lemma NextDayCounts(d: Date)
    requires ValidDate(d)
    ensures DayNumber(NextDay(d)) == DayNumber(d) + 1
  {
    hide DaysBeforeYear, IsLeap;
    YearLength(d.year);
    MonthsOfYear(d.year);
  }

  lemma {:induction false} DayNumberOfCivil(n: int)
    ensures DayNumber(Civil(n)) == n
    decreases if n < 0 then -n else n
  {
    if n > 0 {
      DayNumberOfCivil(n - 1);
      NextDayCounts(Civil(n - 1));
    } else if n < 0 {
      DayNumberOfCivil(n + 1);
      NextDayCounts(Civil(n));
    }
  }

  // ---------- Order ----------

  // The closed formula with years that begin in March, in which the lengths of the months
  // do not occur.
  lemma DayNumberIsClosed(d: Date)
    requires ValidDate(d)
    ensures var y := if d.month <= 2 then d.year - 1 else d.year;
            var mp := (d.month + 9) % 12;
            DayNumber(d) == 365 * y + y / 4 - y / 100 + y / 400 + (153 * mp + 2) / 5 + d.day - 1 - 719468
  {
    hide IsLeap, LeapDaysBefore;
    LeapSteps(d.year);
    MonthStarts(d.year, d.month);
    LeapsBefore(d.year);
    LeapsBefore(d.year + 1);
    LeapsBefore(1970);
  }

  lemma LeapsBefore(y: int)
    ensures LeapDaysBefore(y) == (y - 1) / 4 - (y - 1) / 100 + (y - 1) / 400
  {
  }

  lemma MonthStarts(y: int, m: int)
    requires 1 <= m <= 12
    ensures m == 1 ==> DaysBeforeMonth(y, m) == 0
    ensures m == 2 ==> DaysBeforeMonth(y, m) == 31
    ensures m >= 3 ==> DaysBeforeMonth(y, m) == (if IsLeap(y) then 60 else 59) + (153 * (m - 3) + 2) / 5
  {
    assert DaysBeforeMonth(y, 1) == 0;
    assert DaysBeforeMonth(y, 2) == 31;
    assert DaysBeforeMonth(y, 3) == if IsLeap(y) then 60 else 59;
    assert DaysBeforeMonth(y, 4) == DaysBeforeMonth(y, 3) + 31;
    assert DaysBeforeMonth(y, 5) == DaysBeforeMonth(y, 3) + 61;
    assert DaysBeforeMonth(y, 6) == DaysBeforeMonth(y, 3) + 92;
    assert DaysBeforeMonth(y, 7) == DaysBeforeMonth(y, 3) + 122;
    assert DaysBeforeMonth(y, 8) == DaysBeforeMonth(y, 3) + 153;
    assert DaysBeforeMonth(y, 9) == DaysBeforeMonth(y, 3) + 184;
    assert DaysBeforeMonth(y, 10) == DaysBeforeMonth(y, 3) + 214;
    assert DaysBeforeMonth(y, 11) == DaysBeforeMonth(y, 3) + 245;
    assert DaysBeforeMonth(y, 12) == DaysBeforeMonth(y, 3) + 275;
  }

  predicate Before(a: Date, b: Date) {
    a.year < b.year
    || (a.year == b.year && (a.month < b.month || (a.month == b.month && a.day < b.day)))
  }

  lemma {:induction false} YearsGrow(y: int, z: int)
    requires y < z
    ensures DaysBeforeYear(y + 1) <= DaysBeforeYear(z)
    decreases z - y
  {
    hide DaysBeforeYear;
    if y + 1 < z {
      YearsGrow(y, z - 1);
      YearLength(z - 1);
    }
  }

  lemma {:induction false} MonthsGrow(y: int, m: int, n: int)
    requires 1 <= m < n <= 12
    ensures DaysBeforeMonth(y, m) + DaysInMonth(y, m) <= DaysBeforeMonth(y, n)
    decreases n - m
  {
    hide DaysInMonth;
    MonthHasDays(y, n - 1);
    if m + 1 < n {
      MonthsGrow(y, m, n - 1);
    }
  }

  lemma MonthHasDays(y: int, m: int)
    ensures 28 <= DaysInMonth(y, m) <= 31
  {
  }

  lemma {:induction false} MonthsStartInYear(y: int, m: int)
    requires 1 <= m <= 12
    ensures 0 <= DaysBeforeMonth(y, m)
  {
    if m > 1 {
      MonthsStartInYear(y, m - 1);
    }
  }

  lemma EarlierDateHasSmallerNumber(a: Date, b: Date)
    requires ValidDate(a) && ValidDate(b) && Before(a, b)
    ensures DayNumber(a) < DayNumber(b)
  {
    hide DaysBeforeYear, DaysBeforeMonth, DaysInMonth;
    if a.year < b.year {
      YearsGrow(a.year, b.year);
      YearLength(a.year);
      MonthsOfYear(a.year);
      MonthsStartInYear(b.year, b.month);
      if a.month < 12 {
        MonthsGrow(a.year, a.month, 12);
      } else {
        assert DaysInMonth(a.year, 12) == 31 by { DecemberHas31(a.year); }
      }
    } else if a.month < b.month {
      MonthsGrow(a.year, a.month, b.month);
    }
  }

  lemma DecemberHas31(y: int)
    ensures DaysInMonth(y, 12) == 31
  {
  }

  lemma CalendarOrder(a: Date, b: Date)
    requires ValidDate(a) && ValidDate(b)
    ensures DayNumber(a) < DayNumber(b) <==> Before(a, b)
  {
    hide DayNumber;
    if Before(a, b) {
      EarlierDateHasSmallerNumber(a, b);
    } else if Before(b, a) {
      EarlierDateHasSmallerNumber(b, a);
    } else {
      assert a == b;
    }
  }

  // Counting days and walking through the calendar are inverse to each other.
  lemma CivilOfDayNumber(d: Date)
    requires ValidDate(d)
    ensures Civil(DayNumber(d)) == d
  {
    hide DayNumber, Civil;
    var c := Civil(DayNumber(d));
    DayNumberOfCivil(DayNumber(d));
    CalendarOrder(c, d);
    CalendarOrder(d, c);
  }

  // ---------- Packing ----------

  const TWO_TO_THE_64 := 0x1_0000_0000_0000_0000

  // The cast of the signed year product to uint64_t wraps around.
  function Pack(d: Date): nat
    requires ValidDate(d)
  {
    (d.year * 10000) % TWO_TO_THE_64 + d.month * 100 + d.day
  }

  // What the fetcher computes from the seconds since the epoch.
  function PackedDate(seconds: int): nat {
    Pack(Civil(seconds / 86400))
  }

  datatype Stamp = Stamp(date: Date, hour: int, minute: int, second: int)

  predicate ValidStamp(t: Stamp) {
    && ValidDate(t.date) && 0 <= t.date.year <= 9999
    && 0 <= t.hour < 24 && 0 <= t.minute < 60 && 0 <= t.second < 60
  }

  function Seconds(t: Stamp): int
    requires ValidStamp(t)
  {
    DayNumber(t.date) * 86400 + t.hour * 3600 + t.minute * 60 + t.second
  }

  // The packed date depends on the day alone and shows year, month and day.
  lemma PackedDateOfStamp(t: Stamp)
    requires ValidStamp(t)
    ensures var n := PackedDate(Seconds(t));
            && n == t.date.year * 10000 + t.date.month * 100 + t.date.day
            && Date(n / 10000, n / 100 % 100, n % 100) == t.date
  {
    hide Civil, DayNumber;
    var k := DayNumber(t.date);
    var rest := t.hour * 3600 + t.minute * 60 + t.second;
    assert (k * 86400 + rest) / 86400 == k;
    CivilOfDayNumber(t.date);
    MonthHasDays(t.date.year, t.date.month);
    Unpacked(t.date.year, t.date.month, t.date.day);
  }

  lemma Unpacked(y: int, m: int, d: int)
    requires 0 <= m < 100 && 0 <= d < 100
    ensures var n := y * 10000 + m * 100 + d;
            n / 10000 == y && n / 100 % 100 == m && n % 100 == d
  {
    var n := y * 10000 + m * 100 + d;
    assert n / 100 == y * 100 + m;
    assert (y * 100 + m) % 100 == m;
  }

  // Comparing packed dates is comparing days.
  lemma PackedOrderIsCalendarOrder(a: Stamp, b: Stamp)
    requires ValidStamp(a) && ValidStamp(b)
    ensures PackedDate(Seconds(a)) < PackedDate(Seconds(b)) <==> DayNumber(a.date) < DayNumber(b.date)
    ensures PackedDate(Seconds(a)) == PackedDate(Seconds(b)) <==> a.date == b.date
  {
    hide PackedDate, Seconds, DayNumber;
    PackedDateOfStamp(a);
    PackedDateOfStamp(b);
    CalendarOrder(a.date, b.date);
    MonthHasDays(a.date.year, a.date.month);
    MonthHasDays(b.date.year, b.date.month);
  }

  // Eight digits, exactly from the year 1000 on.
  lemma EightDigitsIff(t: Stamp)
    requires ValidStamp(t)
    ensures 1000_0000 <= PackedDate(Seconds(t)) < 1_0000_0000 <==> t.date.year >= 1000
  {
    hide PackedDate, Seconds;
    PackedDateOfStamp(t);
    MonthHasDays(t.date.year, t.date.month);
  }
}
