// The calendar of share/util/clock.c: days numbered by a closed form, its guessed and then
// corrected inverse, and seconds since 1970.
module Clock {
  datatype Date = Date(year: nat, month: nat, day: nat)

  // ----- the Gregorian calendar -----

  predicate Leap(yr: nat)
  {
    yr % 400 == 0 || (yr % 4 == 0 && yr % 100 != 0)
  }

  // The table of month lengths, without the leap day.
  function Days(mo: nat): nat
    requires 1 <= mo <= 12
  {
    if mo == 2 then 28 else if mo == 4 || mo == 6 || mo == 9 || mo == 11 then 30 else 31
  }

  function MonthLength(yr: nat, mo: nat): nat
    requires 1 <= mo <= 12
  {
    Days(mo) + if mo == 2 && Leap(yr) then 1 else 0
  }

  // clk_is_valid_date, from the year 1 on.
  predicate Valid(d: Date)
  {
    d.year >= 1 && 1 <= d.month <= 12 && 1 <= d.day <= MonthLength(d.year, d.month)
  }

  predicate LeapDay(d: Date)
  {
    Leap(d.year) && d.month == 2 && d.day == 29
  }

  function Tomorrow(d: Date): (r: Date)
    requires Valid(d)
    ensures Valid(r)
  {
    if d.day < MonthLength(d.year, d.month) then d.(day := d.day + 1)
    else if d.month < 12 then Date(d.year, d.month + 1, 1)
    else Date(d.year + 1, 1, 1)
  }

  // The date k days after d.
  function After(d: Date, k: nat): (r: Date)
    requires Valid(d)
    ensures Valid(r)
  {
    if k == 0 then d else Tomorrow(After(d, k - 1))
  }

  // ----- the closed forms -----

  function MonthsToDays(month: nat): nat
    requires month >= 1
  {
    (month * 3057 - 3007) / 100
  }

  function YearsToDays(yr: nat): nat
  {
    yr * 365 + yr / 4 - yr / 100 + yr / 400
  }

  function YmdToScalar(d: Date): int
    requires d.year >= 1 && d.month >= 1
  {
    d.day + MonthsToDays(d.month)
      - (if d.month > 2 then if Leap(d.year) then 1 else 2 else 0)
      + YearsToDays(d.year - 1)
  }

  lemma YearLength(yr: nat)
    requires yr >= 1
    ensures YearsToDays(yr) == YearsToDays(yr - 1) + if Leap(yr) then 366 else 365
  {
    Steps4(yr);
    Steps100(yr);
    Steps400(yr);
    Multiples(yr);
  }

  lemma Steps4(n: nat)
    requires n >= 1
    ensures n / 4 == (n - 1) / 4 + if n % 4 == 0 then 1 else 0
  {}

  lemma Steps100(n: nat)
    requires n >= 1
    ensures n / 100 == (n - 1) / 100 + if n % 100 == 0 then 1 else 0
  {}

  lemma Steps400(n: nat)
    requires n >= 1
    ensures n / 400 == (n - 1) / 400 + if n % 400 == 0 then 1 else 0
  {}

  lemma Multiples(n: nat)
    ensures n % 400 == 0 ==> n % 100 == 0
    ensures n % 100 == 0 ==> n % 4 == 0
  {
    if n % 400 == 0 {
      assert n == 100 * (4 * (n / 400));
    }
    if n % 100 == 0 {
      assert n == 4 * (25 * (n / 100));
    }
  }

  // Each date is numbered one more than the day before.
  lemma ScalarSucceeds(d: Date)
    requires Valid(d)
    ensures YmdToScalar(Tomorrow(d)) == YmdToScalar(d) + 1
  {
    hide YearsToDays;
    YearLength(d.year);
  }

  // Main result: the number of a date counts the days since 1 January of the year 1.
  lemma {:induction false} ScalarCounts(d: Date, k: nat)
    requires Valid(d)
    ensures YmdToScalar(After(d, k)) == YmdToScalar(d) + k
    ensures YmdToScalar(Date(1, 1, 1)) == 1
  {
    hide YmdToScalar, Tomorrow;
    if k > 0 {
      ScalarCounts(d, k - 1);
      ScalarSucceeds(After(d, k - 1));
    }
    FirstDay();
  }

  lemma FirstDay()
    ensures YmdToScalar(Date(1, 1, 1)) == 1
  {}

  function Dow(d: Date): int
    requires d.year >= 1 && d.month >= 1
  {
    (YmdToScalar(d) - 1) % 7
  }

  // The day of the week advances by one every day; 1 January of the year 1 is a Monday, 0.
  lemma {:induction false} DowAdvances(d: Date, k: nat)
    requires Valid(d)
    ensures Dow(After(d, k)) == (Dow(d) + k) % 7
    ensures Dow(Date(1, 1, 1)) == 0
  {
    hide YmdToScalar, After;
    ScalarCounts(d, k);
    DaysLater(YmdToScalar(d), k);
  }

  // k days later in the week.
  lemma DaysLater(x: int, k: nat)
    ensures (x + k - 1) % 7 == ((x - 1) % 7 + k) % 7
  {
    var q := (x - 1) / 7;
    assert x + k - 1 == 7 * q + ((x - 1) % 7 + k);
    WeeksPass(q, (x - 1) % 7 + k);
  }

  lemma WeeksPass(q: int, r: nat)
    ensures (7 * q + r) % 7 == r % 7
  {}

  // ----- the inverse -----

  // The year a day number falls in.
  predicate InYear(scalar: nat, yr: nat)
  {
    yr >= 1 && YearsToDays(yr - 1) < scalar <= YearsToDays(yr)
  }

  lemma {:induction false} YearsGrow(a: nat, b: nat)
    requires a <= b
    ensures YearsToDays(a) + 365 * (b - a) <= YearsToDays(b)
    decreases b - a
  {
    if a < b {
      YearLength(b);
      YearsGrow(a, b - 1);
    }
  }

  lemma OneYear(scalar: nat, a: nat, b: nat)
    requires InYear(scalar, a) && InYear(scalar, b)
    ensures a == b
  {
    hide YearsToDays;
    if a < b {
      YearsGrow(a, b - 1);
    } else if b < a {
      YearsGrow(b, a - 1);
    }
  }

  // The guess is never past the year.
  lemma GuessIsLow(scalar: nat)
    requires scalar >= 1
    ensures var n := scalar * 400 / 146097;
            n == 0 || YearsToDays(n - 1) < scalar
  {}

  // Month and day from the day of the year, as the code computes them.
  function MonthDay(leap: bool, dayOfYear: nat): (nat, int)
  {
    var n := if dayOfYear <= 59 then dayOfYear
             else dayOfYear + 2 - (if leap then if dayOfYear + 2 > 61 then 1 else 2 else 0);
    var mo := (n * 100 + 3007) / 3057;
    (mo, n - if mo >= 1 then MonthsToDays(mo) else 0)
  }

  function DayOfYear(leap: bool, mo: nat, day: nat): int
    requires mo >= 1
  {
    day + MonthsToDays(mo) - if mo > 2 then if leap then 1 else 2 else 0
  }

  lemma EarlyMonths(leap: bool, mo: nat, day: nat)
    requires 1 <= mo <= 2 && 1 <= day <= Days(mo) + if mo == 2 && leap then 1 else 0
    ensures 1 <= DayOfYear(leap, mo, day) <= 60
    ensures MonthDay(leap, DayOfYear(leap, mo, day)) == (mo, if leap && mo == 2 && day == 29 then 30 else day)
  {
    match mo { case 1 => case _ => }
  }

  lemma LateMonths(leap: bool, mo: nat, day: nat)
    requires 3 <= mo <= 12 && 1 <= day <= Days(mo)
    ensures 60 <= DayOfYear(leap, mo, day) <= if leap then 366 else 365
    ensures MonthDay(leap, DayOfYear(leap, mo, day)) == (mo, day)
  {
    var n := day + MonthsToDays(mo);
    match mo { case 3 => case 4 => case 5 => case 6 => case 7 => case 8 => case 9 => case 10 => case 11 => case _ => }
    assert (n * 100 + 3007) / 3057 == mo;
  }

  // The formulas for the month are inverted exactly, but for 29 February, which comes out as
  // the thirtieth.
  lemma MonthDayInverts(d: Date)
    requires Valid(d)
    ensures var n := YmdToScalar(d) - YearsToDays(d.year - 1);
            && 1 <= n <= (if Leap(d.year) then 366 else 365)
            && MonthDay(Leap(d.year), n) == (d.month, if LeapDay(d) then 30 else d.day)
  {
    hide YearsToDays, MonthsToDays, MonthDay;
    if d.month <= 2 {
      EarlyMonths(Leap(d.year), d.month, d.day);
    } else {
      LateMonths(Leap(d.year), d.month, d.day);
    }
  }

  // Different dates have different numbers.
  lemma ScalarInjective(c: Date, d: Date)
    requires Valid(c) && Valid(d) && YmdToScalar(c) == YmdToScalar(d)
    ensures c == d
  {
    hide YearsToDays, MonthsToDays, MonthDay, YmdToScalar;
    MonthDayInverts(c);
    MonthDayInverts(d);
    YearLength(c.year);
    YearLength(d.year);
    OneYear(YmdToScalar(c), c.year, d.year);
  }

  // The date with a number: every number has one.
  function DateOf(scalar: nat): (d: Date)
    requires scalar >= 1
    ensures Valid(d)
  {
    After(Date(1, 1, 1), scalar - 1)
  }

  lemma DateOfScalar(scalar: nat)
    requires scalar >= 1
    ensures YmdToScalar(DateOf(scalar)) == scalar
  {
    hide After, YmdToScalar;
    ScalarCounts(Date(1, 1, 1), scalar - 1);
  }

  lemma ScalarOfDate(d: Date)
    requires Valid(d)
    ensures YmdToScalar(d) >= 1 && DateOf(YmdToScalar(d)) == d
  {
    hide After, YmdToScalar, DateOf, YearsToDays;
    MonthDayInverts(d);
    DateOfScalar(YmdToScalar(d));
    ScalarInjective(DateOf(YmdToScalar(d)), d);
  }

  // What the inverse shows for a date.
  function Shown(d: Date): Date
  {
    if LeapDay(d) then d.(day := 30) else d
  }

  // Main result: the guess is corrected to the right year, the loops end, and the date is
  // the one that was numbered, unless that is a 29 February.
  method ScalarToYmd(scalar: nat) returns (yr: nat, mo: nat, day: int)
    requires scalar >= 1
    ensures yr >= 1 && day >= 0 && Date(yr, mo, day) == Shown(DateOf(scalar))
  {
    hide YearsToDays, After, DateOf, YmdToScalar, MonthsToDays, MonthDay;
    ghost var d := DateOf(scalar);
    DateOfScalar(scalar);
    MonthDayInverts(d);
    YearLength(d.year);
    GuessIsLow(scalar);
    var n: nat := scalar * 400 / 146097;
    while YearsToDays(n) < scalar
      invariant n == 0 || YearsToDays(n - 1) < scalar
      decreases scalar - YearsToDays(n)
    {
      YearLength(n + 1);
      n := n + 1;
    }
    n := scalar * 400 / 146097;
    while YearsToDays(n) < scalar
      invariant n == 0 || YearsToDays(n - 1) < scalar
      decreases scalar - YearsToDays(n)
    {
      YearLength(n + 1);
      n := n + 1;
    }
    yr := n;
    NoYearZero();
    OneYear(scalar, yr, d.year);
    n := scalar - YearsToDays(yr - 1);
    MonthDayIs(Leap(yr), n);
    if n > 59 {
      n := n + 2;
      if Leap(yr) {
        n := n - if n > 61 then 1 else 2;
      }
    }
    mo := (n * 100 + 3007) / 3057;
    day := n - MonthsToDays(mo);
  }

  lemma NoYearZero()
    ensures YearsToDays(0) == 0
  {}

  lemma MonthDayIs(leap: bool, dayOfYear: nat)
    ensures var n := if dayOfYear <= 59 then dayOfYear
                     else if leap then dayOfYear + 2 - (if dayOfYear + 2 > 61 then 1 else 2) else dayOfYear + 2;
            dayOfYear >= 1 ==>
              (n * 100 + 3007) / 3057 >= 1
                && MonthDay(leap, dayOfYear) == ((n * 100 + 3007) / 3057, n - MonthsToDays((n * 100 + 3007) / 3057))
  {}

  // ----- seconds -----

  // struct tm.
  datatype Tm = Tm(sec: int, min: int, hour: int, mday: int, mon: int, year: int, wday: int, yday: int, isdst: int)

  const EPOCH := Date(1970, 1, 1)

  function TmDate(tm: Tm): Date
    requires tm.year >= -1900 && tm.mon >= 0 && tm.mday >= 0
  {
    Date(tm.year + 1900, tm.mon + 1, tm.mday)
  }

  // In 32-bit arithmetic; all ones for a year it does not cover.
  function ToEpoch(tm: Tm): int
    requires tm.mon >= 0 && tm.mday >= 0
  {
    if tm.year < 70 || tm.year > 120 then 0xffff_ffff
    else
      var days := YmdToScalar(TmDate(tm)) - YmdToScalar(EPOCH);
      (((days * 24 + tm.hour) * 60 + tm.min) * 60 + tm.sec) % 0x1_0000_0000
  }

  lemma EpochDay()
    ensures YmdToScalar(EPOCH) == 719163 && YmdToScalar(Date(2020, 12, 31)) == 737790
  {}

  // The day a second falls on.
  function DayOf(timer: nat): (d: Date)
    ensures Valid(d)
  {
    DateOf(timer / 86400 + 719163)
  }

  // The broken-down time of a second.
  predicate Shows(timer: nat, tm: Tm)
  {
    && tm.year >= 70 && tm.mon >= 0 && tm.mday >= 0
    && var shown := Shown(DayOf(timer));
    && TmDate(tm) == shown
    && tm.hour * 3600 + tm.min * 60 + tm.sec == timer % 86400
    && 0 <= tm.hour < 24 && 0 <= tm.min < 60 && 0 <= tm.sec < 60
    && tm.wday == Dow(shown)
    && tm.yday == YmdToScalar(shown) - YmdToScalar(Date(shown.year, 1, 1))
    && tm.isdst == -1
  }

  method ToDatetime(timer: nat) returns (tm: Tm)
    requires timer < 0x1_0000_0000
    ensures Shows(timer, tm)
  {
    hide YmdToScalar, DateOf, Shown;
    EpochDay();
    var days, secs := timer / 86400, timer % 86400;
    var yr, mo, da := ScalarToYmd(days + YmdToScalar(EPOCH));
    NotBefore(days);
    tm := Tm(secs % 60, secs / 60 % 60, secs / 3600, da, mo - 1, yr - 1900,
             Dow(Date(yr, mo, da)), YmdToScalar(Date(yr, mo, da)) - YmdToScalar(Date(yr, 1, 1)), -1);
    Clockface(secs);
  }

  lemma Clockface(secs: nat)
    requires secs < 86400
    ensures secs / 3600 * 3600 + secs / 60 % 60 * 60 + secs % 60 == secs
    ensures secs / 60 / 60 == secs / 3600 < 24
  {}

  lemma NotBefore(days: nat)
    ensures var d := DateOf(days + 719163);
            d.year >= 1970 && Shown(d).year == d.year && Shown(d).month == d.month && d.month >= 1
  {
    hide YearsToDays, MonthsToDays, DateOf;
    var d := DateOf(days + 719163);
    DateOfScalar(days + 719163);
    EpochDay();
    MonthDayInverts(d);
    YearLength(d.year);
    if d.year < 1970 {
      YearsGrow(d.year, 1969);
    }
  }

  // The fields are those of struct tm: months from 0, days of the month from 1, days of the week
  // and of the year from 0.
  lemma TmRanges(timer: nat, tm: Tm)
    requires Shows(timer, tm)
    ensures 0 <= tm.mon <= 11 && 1 <= tm.mday <= 31 && 0 <= tm.wday <= 6 && 0 <= tm.yday <= 365
    ensures tm.yday == 0 <==> tm.mon == 0 && tm.mday == 1
  {
    hide YmdToScalar, DateOf;
    var d := DayOf(timer);
    MonthDayInverts(d);
    ShownScalar(d);
    YearStarts(d.year);
  }

  lemma YearStarts(yr: nat)
    requires yr >= 1
    ensures YmdToScalar(Date(yr, 1, 1)) == YearsToDays(yr - 1) + 1
  {}

  // Main result: a second between 1970 and 2020 comes back from its broken-down time, but on
  // a 29 February, where a day is gained.
  lemma EpochRoundTrip(timer: nat, tm: Tm)
    requires Shows(timer, tm)
    ensures ToEpoch(tm) ==
            if DayOf(timer).year > 2020 then 0xffff_ffff
            else if LeapDay(DayOf(timer)) then timer + 86400
            else timer
  {
    hide YmdToScalar, DateOf, YearsToDays;
    var d := DayOf(timer);
    var days := timer / 86400;
    DateOfScalar(days + 719163);
    EpochDay();
    if d.year <= 2020 {
      BeforeEnd(d);
      ShownScalar(d);
      var n := YmdToScalar(Shown(d)) - 719163;
      Seconds(n, tm.hour, tm.min, tm.sec);
    }
  }

  // The number of the date that is shown is one too high on a 29 February.
  lemma ShownScalar(d: Date)
    requires Valid(d)
    ensures YmdToScalar(Shown(d)) == YmdToScalar(d) + if LeapDay(d) then 1 else 0
  {}

  lemma BeforeEnd(d: Date)
    requires Valid(d) && d.year <= 2020
    ensures YmdToScalar(d) <= 737790
  {
    hide YearsToDays, MonthDay, MonthsToDays;
    MonthDayInverts(d);
    YearLength(d.year);
    YearsGrow(d.year, 2020);
    EndOf2020();
  }

  lemma EndOf2020()
    ensures YearsToDays(2020) == 737790
  {}

  lemma Seconds(n: nat, h: int, m: int, s: int)
    requires n <= 20000 && 0 <= h * 3600 + m * 60 + s < 86400
    ensures (((n * 24 + h) * 60 + m) * 60 + s) % 0x1_0000_0000 == n * 86400 + h * 3600 + m * 60 + s
  {}

  // Conversely, the broken-down time of a valid date and time comes back from its second, but
  // for the day of a 29 February, shown as the thirtieth.
  lemma DatetimeRoundTrip(tm: Tm, back: Tm)
    requires 70 <= tm.year <= 120 && tm.mon >= 0 && tm.mday >= 0 && Valid(TmDate(tm))
    requires 0 <= tm.hour < 24 && 0 <= tm.min < 60 && 0 <= tm.sec < 60
    requires ToEpoch(tm) >= 0 && Shows(ToEpoch(tm), back)
    ensures TmDate(back) == Shown(TmDate(tm))
    ensures (back.hour, back.min, back.sec) == (tm.hour, tm.min, tm.sec)
  {
    hide YmdToScalar, DateOf, YearsToDays, Valid, Shown;
    var d := TmDate(tm);
    EpochDay();
    BeforeEnd(d);
    AfterEpoch(d);
    var n, secs := YmdToScalar(d) - 719163, tm.hour * 3600 + tm.min * 60 + tm.sec;
    Seconds(n, tm.hour, tm.min, tm.sec);
    WholeDays(n, secs);
    ScalarOfDate(d);
    assert DayOf(ToEpoch(tm)) == d;
    SameClock(tm.hour, tm.min, tm.sec, back.hour, back.min, back.sec);
  }

  lemma AfterEpoch(d: Date)
    requires Valid(d) && d.year >= 1970
    ensures YmdToScalar(d) >= 719163
  {
    hide YearsToDays, MonthDay, MonthsToDays;
    MonthDayInverts(d);
    YearsGrow(1969, d.year - 1);
    EndOf1969();
  }

  lemma EndOf1969()
    ensures YearsToDays(1969) == 719162
  {}

  lemma WholeDays(n: nat, secs: nat)
    requires secs < 86400
    ensures (n * 86400 + secs) / 86400 == n && (n * 86400 + secs) % 86400 == secs
  {}

  lemma SameClock(h: int, m: int, s: int, h': int, m': int, s': int)
    requires 0 <= m < 60 && 0 <= s < 60 && 0 <= m' < 60 && 0 <= s' < 60
    requires h * 3600 + m * 60 + s == h' * 3600 + m' * 60 + s'
    ensures (h, m, s) == (h', m', s')
  {
    assert 60 * (h * 60 + m) + s == 60 * (h' * 60 + m') + s';
    SameParts(h * 60 + m, s, h' * 60 + m', s');
    SameParts(h, m, h', m');
  }

  lemma SameParts(q: int, r: int, q': int, r': int)
    requires 0 <= r < 60 && 0 <= r' < 60 && 60 * q + r == 60 * q' + r'
    ensures q == q' && r == r'
  {}

  // The day of the week of a second, but for a 29 February.
  lemma WeekdayOfSecond(timer: nat, tm: Tm)
    requires Shows(timer, tm)
    ensures tm.wday == (timer / 86400 + 3 + if LeapDay(DayOf(timer)) then 1 else 0) % 7
  {
    hide YmdToScalar, DateOf, Shown;
    DateOfScalar(timer / 86400 + 719163);
    ShownScalar(DayOf(timer));
    Weeks(timer / 86400);
    Weeks(timer / 86400 + 1);
  }

  lemma Weeks(n: nat)
    ensures (n + 719163 - 1) % 7 == (n + 3) % 7
  {
    assert n + 719162 == 7 * 102737 + n + 3;
  }

  // ----- the last given weekday of a month -----

  function LastDow(yr: nat, mo: nat, dow: nat): int
    requires yr >= 1
  {
    if mo < 1 || mo > 12 then 0
    else
      var last := Days(mo);
      var lastDow := Dow(Date(yr, mo, last));
      if dow <= lastDow then last - (lastDow - dow) else last - (7 - (dow - lastDow))
  }

  // It is the last one of the month exactly when the leap day, which the table of lengths does
  // not know, is not such a day.
  lemma LastDowIsLast(yr: nat, mo: nat, dow: nat)
    requires yr >= 1 && 1 <= mo <= 12 && dow < 7
    ensures var r := LastDow(yr, mo, dow);
            && 1 <= r <= Days(mo) && Dow(Date(yr, mo, r)) == dow
            && (r + 7 > MonthLength(yr, mo) <==> !(mo == 2 && Leap(yr) && Dow(Date(yr, 2, 29)) == dow))
  {
    hide MonthsToDays, YearsToDays, Leap;
    var last, r := Days(mo), LastDow(yr, mo, dow);
    var first := YmdToScalar(Date(yr, mo, 0));
    assert forall k: nat :: YmdToScalar(Date(yr, mo, k)) == first + k;
    SameWeek(first + last - 1, dow);
    if mo == 2 && Leap(yr) {
      NextWeekday(first + 28 - 1, dow);
    }
  }

  lemma SameWeek(n: int, dow: nat)
    requires dow < 7
    ensures var w := n % 7;
            (if dow <= w then n - (w - dow) else n - (7 - (dow - w))) % 7 == dow
  {}

  lemma NextWeekday(n: int, dow: nat)
    requires dow < 7
    ensures var w := n % 7;
            (n + 1) % 7 == dow <==> dow == if w == 6 then 0 else w + 1
  {}

  // ----- adding a span of time -----

  // C's div: the quotient is truncated towards zero.
  function Quot(x: int, n: nat): int
    requires n > 0
  {
    if x >= 0 then x / n else -(-x / n)
  }

  // One unit brought into range, with the carry; a negative value always borrows.
  function Normal(x: int, n: nat): (int, int)
    requires n > 0
  {
    var q := Quot(x, n);
    var r := x - q * n;
    if x < 0 then (q - 1, r + n) else (q, r)
  }

  lemma NormalIs(x: int, n: nat)
    requires n == 24 || n == 60
    ensures var (q, r) := Normal(x, n);
            && x == q * n + r && 0 <= r <= n
            && (r < n <==> !(x < 0 && x % n == 0))
  {
    hide Quot;
    var q := Quot(x, n);
    if n == 24 {
      QuotIs24(x);
      assert (q - 1) * 24 + (x - q * 24 + 24) == x;
    } else {
      QuotIs60(x);
      assert (q - 1) * 60 + (x - q * 60 + 60) == x;
    }
  }

  lemma QuotIs24(x: int)
    ensures var r := x - Quot(x, 24) * 24;
            && (if x >= 0 then 0 <= r < 24 else -24 < r <= 0) && (r == 0 <==> x % 24 == 0)
  {}

  lemma QuotIs60(x: int)
    ensures var r := x - Quot(x, 60) * 60;
            && (if x >= 0 then 0 <= r < 60 else -60 < r <= 0) && (r == 0 <==> x % 60 == 0)
  {}

  // Main result: no second is lost, and the result is a time of day unless some unit is a
  // negative multiple of its modulus, which comes out as 60 or 24 itself.
  method AddTime(basehrs: nat, basemins: nat, basesecs: nat, spanhrs: int, spanmins: int, spansecs: int)
    returns (ret: int, hrs: int, mins: int, secs: int, days: int)
    ensures ret == if basehrs > 24 || basemins > 59 || basesecs > 59 then -1 else 0
    ensures ret == 0 ==>
              var start := (if basehrs == 24 then 0 else basehrs) * 3600 + basemins * 60 + basesecs;
              && days * 86400 + hrs * 3600 + mins * 60 + secs == start + spanhrs * 3600 + spanmins * 60 + spansecs
              && 0 <= hrs <= 24 && 0 <= mins <= 60 && 0 <= secs <= 60
    ensures ret == 0 ==>
              var s := basesecs + spansecs;
              var m := basemins + spanmins + Normal(s, 60).0;
              var h := (if basehrs == 24 then 0 else basehrs) + spanhrs + Normal(m, 60).0;
              hrs < 24 && mins < 60 && secs < 60
              <==> !(s < 0 && s % 60 == 0) && !(m < 0 && m % 60 == 0) && !(h < 0 && h % 24 == 0)
  {
    hide Normal;
    if basehrs > 24 || basemins > 59 || basesecs > 59 {
      return -1, 0, 0, 0, 0;
    }
    var h := (if basehrs == 24 then 0 else basehrs) + spanhrs;
    var m := basemins + spanmins;
    var s := basesecs + spansecs;
    NormalIs(s, 60);
    secs := Normal(s, 60).1;
    m := m + Normal(s, 60).0;
    NormalIs(m, 60);
    mins := Normal(m, 60).1;
    h := h + Normal(m, 60).0;
    NormalIs(h, 24);
    hrs := Normal(h, 24).1;
    days := Normal(h, 24).0;
    ret := 0;
  }
}
