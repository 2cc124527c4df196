/** The date arithmetic of read_rtc, arch/ia32/time.c. */
module Calendar {
  import opened Basics

  // ------------------------------------------------- the Gregorian calendar

  predicate Leap(y: nat) {
    y % 4 == 0 && (y % 100 != 0 || y % 400 == 0)
  }

  function YearLength(y: nat): nat {
    if Leap(y) then 366 else 365
  }

  function MonthLength(y: nat, m: nat): nat {
    if m == 2 then (if Leap(y) then 29 else 28)
    else if m == 4 || m == 6 || m == 9 || m == 11 then 30
    else 31
  }

  datatype DateTime = DateTime(year: nat, month: nat, day: nat, hour: nat, minute: nat, second: nat)

  predicate Valid(t: DateTime) {
    && 1 <= t.year && 1 <= t.month <= 12 && 1 <= t.day <= MonthLength(t.year, t.month)
    && t.hour < 24 && t.minute < 60 && t.second < 60
  }

  /** The days from 1970-01-01 to the first day of a year, year by year. */
  function DaysToYear(y: nat): int
    decreases if y >= 1970 then y - 1970 else 1970 - y
  {
    if y == 1970 then 0
    else if y > 1970 then DaysToYear(y - 1) + YearLength(y - 1)
    else DaysToYear(y + 1) - YearLength(y)
  }

  /** The days from the first day of a year to the first day of a month, month by month. */
  function DaysToMonth(y: nat, m: nat): nat {
    if m <= 1 then 0 else DaysToMonth(y, m - 1) + MonthLength(y, m - 1)
  }

  /** The seconds from 1970-01-01 00:00:00, counted along the calendar. */
  function Seconds(t: DateTime): int
    requires t.day >= 1
  {
    86400 * (DaysToYear(t.year) + DaysToMonth(t.year, t.month) + t.day - 1)
    + 3600 * t.hour + 60 * t.minute + t.second
  }

  // ------------------------------------------------------- the closed form

  /** The year and month that read_rtc calculates with: the year begins in March. */
  function ShiftedMonth(m: nat): int {
    if m <= 2 then m + 10 else m - 2
  }

  function ShiftedYear(y: nat, m: nat): int {
    if m <= 2 then y - 1 else y
  }

  function LeapDays(s: int): int {
    s / 4 - s / 100 + s / 400
  }

  /** The day number of read_rtc's expression, over the integers. */
  function ClosedDays(y: nat, m: nat, d: nat): int {
    var s := ShiftedYear(y, m);
    LeapDays(s) + 367 * ShiftedMonth(m) / 12 + d + s * 365 - 719499
  }

  /** The whole expression over the integers. */
  function ClosedSeconds(t: DateTime): int {
    ((ClosedDays(t.year, t.month, t.day) * 24 + t.hour) * 60 + t.minute) * 60 + t.second
  }

  lemma Quotient(y: nat, c: nat)
    requires y >= 1 && (c == 4 || c == 100 || c == 400)
    ensures y / c == (y - 1) / c + if y % c == 0 then 1 else 0
  {
  }

  lemma Centuries(y: nat)
    ensures y % 100 == 0 ==> y % 4 == 0
  {
    Fours(y / 100 * 25);
  }

  lemma Cycles(y: nat)
    ensures y % 400 == 0 ==> y % 100 == 0
  {
    Hundreds(y / 400 * 4);
  }

  lemma Fours(q: nat)
    ensures (4 * q) % 4 == 0
  {
  }

  lemma Hundreds(q: nat)
    ensures (100 * q) % 100 == 0
  {
  }

  /** A leap year has one leap day more behind it than the year before. */
  lemma LeapStep(y: nat)
    requires y >= 1
    ensures LeapDays(y) == LeapDays(y - 1) + if Leap(y) then 1 else 0
  {
    Quotient(y, 4);
    Quotient(y, 100);
    Quotient(y, 400);
    Cycles(y);
    Centuries(y);
  }

  lemma YearStep(y: nat)
    requires y >= 1
    ensures ClosedDays(y + 1, 1, 1) == ClosedDays(y, 1, 1) + YearLength(y)
  {
    LeapStep(y);
    hide Leap, LeapDays;
  }

  lemma FirstDay()
    ensures ClosedDays(1970, 1, 1) == 0
  {
  }

  lemma {:induction false} ClosedYear(y: nat)
    requires y >= 1
    ensures ClosedDays(y, 1, 1) == DaysToYear(y)
    decreases if y >= 1970 then y - 1970 else 1970 - y
  {
    hide ClosedDays, YearLength;
    if y > 1970 {
      ClosedYear(y - 1);
      YearStep(y - 1);
    } else if y < 1970 {
      ClosedYear(y + 1);
      YearStep(y);
    } else {
      FirstDay();
    }
  }

  /** The length of the n-th month of a year that begins in March. */
  lemma MonthSpan(n: nat)
    requires 1 <= n <= 11
    ensures 367 * (n + 1) / 12 == 367 * n / 12 + if n == 2 || n == 4 || n == 7 || n == 9 then 30 else 31
  {
  }

  lemma MonthStep(y: nat, m: nat)
    requires y >= 1 && 1 <= m < 12
    ensures ClosedDays(y, m + 1, 1) == ClosedDays(y, m, 1) + MonthLength(y, m)
  {
    hide Leap, LeapDays;
    if m == 2 {
      LeapStep(y);
    } else {
      MonthSpan(ShiftedMonth(m));
      assert ShiftedMonth(m + 1) == ShiftedMonth(m) + 1 && ShiftedYear(y, m + 1) == ShiftedYear(y, m);
    }
  }

  lemma {:induction false} ClosedMonth(y: nat, m: nat)
    requires y >= 1 && 1 <= m <= 12
    ensures ClosedDays(y, m, 1) == DaysToYear(y) + DaysToMonth(y, m)
  {
    if m == 1 {
      ClosedYear(y);
    } else {
      ClosedMonth(y, m - 1);
      MonthStep(y, m - 1);
    }
  }

  /** For every valid date and time the expression is the count along the calendar. */
  lemma ClosedFormCounts(t: DateTime)
    requires Valid(t)
    ensures ClosedSeconds(t) == Seconds(t)
  {
    ClosedMonth(t.year, t.month);
    assert ClosedDays(t.year, t.month, t.day) == ClosedDays(t.year, t.month, 1) + t.day - 1;
  }

  // --------------------------------------------------------------- order

  predicate DayBefore(a: DateTime, b: DateTime) {
    a.year < b.year || (a.year == b.year && (a.month < b.month || (a.month == b.month && a.day < b.day)))
  }

  predicate Before(a: DateTime, b: DateTime) {
    || DayBefore(a, b)
    || ((a.year, a.month, a.day) == (b.year, b.month, b.day) &&
        (a.hour < b.hour || (a.hour == b.hour &&
          (a.minute < b.minute || (a.minute == b.minute && a.second < b.second)))))
  }

  lemma {:induction false} MonthsAdd(y: nat, m: nat, n: nat)
    requires 1 <= m < n <= 13
    ensures DaysToMonth(y, m) + MonthLength(y, m) <= DaysToMonth(y, n)
  {
    if m + 1 < n {
      MonthsAdd(y, m, n - 1);
    }
  }

  lemma WholeYear(y: nat)
    ensures DaysToMonth(y, 13) == YearLength(y)
  {
    assert DaysToMonth(y, 2) == 31;
    assert DaysToMonth(y, 4) == 31 + MonthLength(y, 2) + 31;
    assert DaysToMonth(y, 6) == DaysToMonth(y, 4) + 61;
    assert DaysToMonth(y, 8) == DaysToMonth(y, 6) + 61;
    assert DaysToMonth(y, 10) == DaysToMonth(y, 8) + 61;
    assert DaysToMonth(y, 12) == DaysToMonth(y, 10) + 61;
  }

  lemma {:induction false} YearsAdd(y: nat, z: nat)
    requires y < z
    ensures DaysToYear(y) + YearLength(y) <= DaysToYear(z)
  {
    if y + 1 < z {
      YearsAdd(y, z - 1);
    }
  }

  lemma DaysIncrease(a: DateTime, b: DateTime)
    requires Valid(a) && Valid(b) && DayBefore(a, b)
    ensures DaysToYear(a.year) + DaysToMonth(a.year, a.month) + a.day
            < DaysToYear(b.year) + DaysToMonth(b.year, b.month) + b.day
  {
    MonthsAdd(a.year, a.month, 13);
    WholeYear(a.year);
    if a.year < b.year {
      YearsAdd(a.year, b.year);
    } else if a.month < b.month {
      MonthsAdd(a.year, a.month, b.month);
    }
    hide DaysToYear, DaysToMonth, MonthLength, YearLength;
  }

  /** Later times count more seconds. */
  lemma SecondsIncrease(a: DateTime, b: DateTime)
    requires Valid(a) && Valid(b) && Before(a, b)
    ensures Seconds(a) < Seconds(b)
  {
    if DayBefore(a, b) {
      DaysIncrease(a, b);
    }
    hide DaysToYear, DaysToMonth, MonthLength;
  }

  lemma BeforeTotal(a: DateTime, b: DateTime)
    ensures Before(a, b) || a == b || Before(b, a)
  {
  }

  /** No two times count the same seconds. */
  lemma SecondsInjective(a: DateTime, b: DateTime)
    requires Valid(a) && Valid(b) && Seconds(a) == Seconds(b)
    ensures a == b
  {
    BeforeTotal(a, b);
    hide Seconds, Before;
    if Before(a, b) {
      SecondsIncrease(a, b);
    } else if Before(b, a) {
      SecondsIncrease(b, a);
    }
  }

  // ------------------------------------------------------- in 32 bits

  const WRAP: int := 0x1_0000_0000

  /** The value a kuint keeps of n. */
  function Low32(n: int): (w: nat)
    ensures w < WRAP
  {
    n % WRAP
  }

  lemma Low32Sum(a: int, b: int)
    ensures Low32(Low32(a) + b) == Low32(a + b)
  {
    assert a == WRAP * (a / WRAP) + Low32(a);
    Shifted(Low32(a) + b, a / WRAP);
  }

  lemma Low32Product(a: int, b: int)
    ensures Low32(Low32(a) * b) == Low32(a * b)
  {
    assert a == WRAP * (a / WRAP) + Low32(a);
    assert a * b == Low32(a) * b + WRAP * (a / WRAP * b);
    Shifted(Low32(a) * b, a / WRAP * b);
  }

  lemma {:induction false} Shifted(n: int, k: int)
    ensures Low32(n + WRAP * k) == Low32(n)
    decreases if k < 0 then -k else k
  {
    if k > 0 {
      Shifted(n, k - 1);
      assert n + WRAP * k == n + WRAP * (k - 1) + WRAP;
    } else if k < 0 {
      Shifted(n, k + 1);
      assert n + WRAP * (k + 1) == n + WRAP * k + WRAP;
    }
  }

  /** The minutes from 1970-01-01 00:00, counted along the calendar. */
  function Minutes(t: DateTime): int
    requires t.day >= 1
  {
    1440 * (DaysToYear(t.year) + DaysToMonth(t.year, t.month) + t.day - 1) + 60 * t.hour + t.minute
  }

  /** What read_rtc stores: the count of minutes wraps at 32 bits, and the last multiplication and
      addition are in 64 bits. */
  function Stored(t: DateTime): int
    requires t.day >= 1
  {
    Low32(Minutes(t)) * 60 + t.second
  }

  lemma SecondsSplit(t: DateTime)
    requires Valid(t)
    ensures Seconds(t) == 60 * Minutes(t) + t.second
    ensures Minutes(t) == (ClosedDays(t.year, t.month, t.day) * 24 + t.hour) * 60 + t.minute
  {
    ClosedFormCounts(t);
    hide DaysToYear, DaysToMonth, MonthLength, ClosedDays;
  }

  const EPOCH := DateTime(1970, 1, 1, 0, 0, 0)
  const LAST := DateTime(10136, 2, 16, 4, 15, 59)

  lemma FirstSecond(t: DateTime)
    requires t == EPOCH
    ensures Valid(t) && Seconds(t) == 0
  {
    hide Seconds, ClosedDays, DaysToYear, DaysToMonth;
    FirstDay();
    ClosedFormCounts(t);
  }

  /** The last second of minute 2^32 - 1. */
  lemma LastSecond(t: DateTime)
    requires t == LAST
    ensures Valid(t) && Seconds(t) == 257698037759
  {
    hide Seconds, ClosedDays, DaysToYear, DaysToMonth;
    LastDay();
    ClosedFormCounts(t);
  }

  lemma LastDay()
    ensures ClosedDays(10136, 2, 16) == 2982616
  {
  }

  lemma StoredIff(t: DateTime)
    requires Valid(t)
    ensures Stored(t) == Seconds(t) <==> 0 <= Seconds(t) <= 257698037759
  {
    SecondsSplit(t);
    hide Seconds, Minutes, MonthLength;
    Low32Iff(Minutes(t));
  }

  lemma Low32Iff(n: int)
    ensures Low32(n) == n <==> 0 <= n < 0x1_0000_0000
  {
  }

  /** What read_rtc stores is exact from 1970-01-01 00:00:00 to 10136-02-16 04:15:59, and at no other
      time. */
  lemma ExactIff(t: DateTime)
    requires Valid(t)
    ensures Stored(t) == Seconds(t) <==> !Before(t, EPOCH) && !Before(LAST, t)
  {
    hide Seconds, Stored, Before, Valid, DaysToYear, DaysToMonth;
    var first, last := EPOCH, LAST;
    FirstSecond(first);
    LastSecond(last);
    BeforeTotal(t, first);
    BeforeTotal(t, last);
    StoredIff(t);
    if Before(t, first) {
      SecondsIncrease(t, first);
    } else if Before(last, t) {
      SecondsIncrease(last, t);
    } else {
      if Before(first, t) {
        SecondsIncrease(first, t);
      }
      if Before(t, last) {
        SecondsIncrease(t, last);
      }
    }
  }

  /** On a clock that shows decimal digits it is exact from 1970 on, and only then. */
  lemma ExactOnClockIff(t: DateTime)
    requires Valid(t) && t.year <= 9999
    ensures Stored(t) == Seconds(t) <==> t.year >= 1970
  {
    ExactIff(t);
    hide Stored, Seconds, MonthLength;
  }

  /** The last minute of 1969 is stored as a time more than 8000 years ahead. */
  lemma BeforeEpochFails(t: DateTime)
    requires t == DateTime(1969, 12, 31, 23, 59, 0)
    ensures Valid(t) && Seconds(t) == -60 && Stored(t) == 257698037700
  {
    YearEnd();
    SecondsSplit(t);
    hide Seconds, Minutes, ClosedDays;
  }

  lemma YearEnd()
    ensures ClosedDays(1969, 12, 31) == -1
  {
  }

  // --------------------------------------------------------- the registers

  /** The value of a byte of the clock: two decimal digits. */
  function BcdToBinary(v: Byte): nat {
    v % 16 + v / 16 * 10
  }

  function Bcd(n: nat): (v: Byte)
    requires n < 100
  {
    n / 10 * 16 + n % 10
  }

  /** The value of a register is what was encoded in it, and two registers of decimal digits have
      the same value only if they are equal. */
  lemma BcdRoundTrip(n: nat, v: Byte)
    ensures n < 100 ==> BcdToBinary(Bcd(n)) == n
    ensures v % 16 < 10 && v / 16 < 10 ==> BcdToBinary(v) < 100 && Bcd(BcdToBinary(v)) == v
  {
  }

  /** The clock registers. */
  datatype Registers = Registers(century: Byte, year: Byte, month: Byte, day: Byte, hour: Byte, minute: Byte,
                                 second: Byte)

  function Shown(r: Registers): DateTime {
    DateTime(100 * BcdToBinary(r.century) + BcdToBinary(r.year), BcdToBinary(r.month), BcdToBinary(r.day),
             BcdToBinary(r.hour), BcdToBinary(r.minute), BcdToBinary(r.second))
  }

  /** A clock that shows a date and time, with the tens of each pair of digits in the upper half of a byte, is read
      as that date and time. */
  lemma ClockShows(t: DateTime, r: Registers)
    requires Valid(t) && t.year <= 9999
    requires r.century as nat == 16 * (t.year / 1000) + t.year / 100 % 10
    requires r.year as nat == 16 * (t.year / 10 % 10) + t.year % 10
    requires r.month as nat == 16 * (t.month / 10) + t.month % 10
    requires r.day as nat == 16 * (t.day / 10) + t.day % 10
    requires r.hour as nat == 16 * (t.hour / 10) + t.hour % 10
    requires r.minute as nat == 16 * (t.minute / 10) + t.minute % 10
    requires r.second as nat == 16 * (t.second / 10) + t.second % 10
    ensures Shown(r) == t
  {
    SmallFields(t);
    YearDigits(t.year);
    hide Valid, MonthLength, BcdToBinary;
    TwoDigits(r.century, t.year / 100);
    TwoDigits(r.year, t.year % 100);
    TwoDigits(r.month, t.month);
    TwoDigits(r.day, t.day);
    TwoDigits(r.hour, t.hour);
    TwoDigits(r.minute, t.minute);
    TwoDigits(r.second, t.second);
  }

  lemma SmallFields(t: DateTime)
    requires Valid(t)
    ensures t.month < 100 && t.day < 100 && t.hour < 100 && t.minute < 100 && t.second < 100
  {
  }

  lemma YearDigits(y: nat)
    requires y <= 9999
    ensures y / 100 < 100 && y / 1000 == y / 100 / 10 && y / 10 % 10 == y % 100 / 10 && y % 10 == y % 100 % 10
    ensures 100 * (y / 100) + y % 100 == y
  {
    var h, r := y / 100, y % 100;
    Tens(h, r);
    Thousands(h, r);
  }

  lemma Tens(h: nat, r: nat)
    requires r < 100
    ensures (100 * h + r) / 10 % 10 == r / 10 && (100 * h + r) % 10 == r % 10
  {
    assert (100 * h + r) / 10 == 10 * h + r / 10;
  }

  lemma Thousands(h: nat, r: nat)
    requires r < 100
    ensures (100 * h + r) / 1000 == h / 10
  {
    assert 100 * h + r == 1000 * (h / 10) + (100 * (h % 10) + r);
  }

  lemma TwoDigits(v: Byte, n: nat)
    requires n < 100 && v as nat == 16 * (n / 10) + n % 10
    ensures BcdToBinary(v) == n
  {
  }

  /** The day number, in the arithmetic of kuint; `year` and `month` are as the clock shows them. */
  method DayNumber(shownYear: nat, shownMonth: nat, day: nat) returns (days: nat)
    requires shownYear < 0x1_0000 && shownMonth < 0x100 && day < 0x100
    ensures shownYear >= 1 && 1 <= shownMonth <= 12 ==> days == Low32(ClosedDays(shownYear, shownMonth, day))
  {
    hide Low32, ClosedDays, LeapDays;
    var year, month := ShiftDate(shownYear, shownMonth);
    if shownYear >= 1 && 1 <= shownMonth <= 12 {
      LeapDaysFit(year);
      Fits(LeapDays(year), year, month, day);
      DaysOf(shownYear, shownMonth, day);
    }
    var quads := Low32(Low32(year / 4 - year / 100) + year / 400);
    var sum := Low32(Low32(quads + Low32(367 * month) / 12) + day);
    days := Low32(Low32(sum + Low32(year * 365)) - 719499);
  }

  lemma DaysOf(y: nat, m: nat, d: nat)
    ensures var s := ShiftedYear(y, m);
            ClosedDays(y, m, d) == LeapDays(s) + 367 * ShiftedMonth(m) / 12 + d + s * 365 - 719499
  {
  }

  /** The year and month of the calculation: a month of 0 or less belongs to the year before. */
  method ShiftDate(shownYear: nat, shownMonth: nat) returns (year: nat, month: nat)
    requires shownYear < 0x1_0000 && shownMonth < 0x100
    ensures shownYear >= 1 && 1 <= shownMonth <= 12 ==>
              year == ShiftedYear(shownYear, shownMonth) && month == ShiftedMonth(shownMonth)
    ensures year < WRAP && month < WRAP
  {
    year, month := shownYear, Low32(shownMonth - 2);
    if 0 >= Int32(month) {
      month := Low32(month + 12);
      year := Low32(year - 1);
    }
  }

  /** The leap days of a year that a clock can show do not wrap. */
  lemma LeapDaysFit(year: nat)
    requires year < 0x1_0000
    ensures 0 <= LeapDays(year) < 0x1_0000
    ensures Low32(Low32(year / 4 - year / 100) + year / 400) == LeapDays(year)
  {
    assert 0 <= year / 400 <= year / 100;
    assert year / 100 <= year / 4 <= year;
    Low32Iff(year / 4 - year / 100);
    Low32Iff(LeapDays(year));
    hide Low32;
  }

  /** Nothing wraps before the last subtraction. */
  lemma Fits(leaps: nat, year: nat, month: nat, day: nat)
    requires leaps < 0x1_0000 && year < 0x1_0000 && 1 <= month <= 12 && day < 0x100
    ensures var months := 367 * month / 12;
            && Low32(367 * month) == 367 * month
            && Low32(leaps + months) == leaps + months
            && Low32(leaps + months + day) == leaps + months + day
            && Low32(year * 365) == year * 365
            && Low32(leaps + months + day + year * 365) == leaps + months + day + year * 365
  {
    var months := 367 * month / 12;
    assert 0 <= months < 0x1000;
  }

  /** One factor and one summand more, in 32 bits. */
  lemma Low32Step(a: int, b: int, c: int)
    ensures Low32(Low32(Low32(a) * b) + c) == Low32(a * b + c)
  {
    Low32Product(a, b);
    Low32Sum(a * b, c);
  }

  /** read_rtc. The minutes are calculated in kuint, the seconds in kint64. */
  method ReadRtc(r: Registers) returns (second: int, nanosecond: int)
    ensures Valid(Shown(r)) ==> second == Stored(Shown(r))
    ensures nanosecond == 0
  {
    hide Low32, BcdToBinary, ClosedDays, Seconds, Minutes, MonthLength;
    ghost var t := Shown(r);
    RegisterBounds(r);
    var year := Low32(100 * BcdToBinary(r.century));
    year := Low32(year + BcdToBinary(r.year));
    var days := DayNumber(year, BcdToBinary(r.month), BcdToBinary(r.day));
    var hours := Low32(Low32(days * 24) + BcdToBinary(r.hour));
    var minutes := Low32(Low32(hours * 60) + BcdToBinary(r.minute));
    second := minutes * 60 + BcdToBinary(r.second);
    nanosecond := 0;
    if Valid(t) {
      SecondsSplit(t);
      var d := ClosedDays(t.year, t.month, t.day);
      Low32Step(d, 24, t.hour);
      Low32Step(d * 24 + t.hour, 60, t.minute);
    }
  }

  lemma RegisterBounds(r: Registers)
    ensures BcdToBinary(r.month) < 0x100 && BcdToBinary(r.day) < 0x100
    ensures BcdToBinary(r.hour) < 0x100 && BcdToBinary(r.minute) < 0x100 && BcdToBinary(r.second) < 0x100
    ensures Low32(100 * BcdToBinary(r.century)) == 100 * BcdToBinary(r.century)
    ensures Low32(Shown(r).year) == Shown(r).year < 0x1_0000
  {
    BcdBound(r.century);
    BcdBound(r.year);
    BcdBound(r.month);
    BcdBound(r.day);
    BcdBound(r.hour);
    BcdBound(r.minute);
    BcdBound(r.second);
    hide BcdToBinary;
  }

  lemma BcdBound(v: Byte)
    ensures BcdToBinary(v) <= 165
  {
  }
}
