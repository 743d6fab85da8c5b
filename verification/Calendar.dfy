/** Civil dates from day numbers (src/log/mod.rs `days_to_date`, src/client/selector.rs
    `format_absolute`). */
module Calendar {
  import opened Ints

  // ---- The Gregorian calendar ----

  datatype Date = Date(year: int, month: int, day: int)

  predicate IsLeap(year: int) {
    year % 4 == 0 && (year % 100 != 0 || year % 400 == 0)
  }

  function DaysIn(year: int, month: int): int {
    if month == 2 then if IsLeap(year) then 29 else 28
    else if month == 4 || month == 6 || month == 9 || month == 11 then 30
    else 31
  }

  predicate IsDate(d: Date) {
    1 <= d.month <= 12 && 1 <= d.day <= DaysIn(d.year, d.month)
  }

  /** The calendar successor of a date. */
  function NextDate(d: Date): Date {
    if d.day < DaysIn(d.year, d.month) then d.(day := d.day + 1)
    else if d.month < 12 then Date(d.year, d.month + 1, 1)
    else Date(d.year + 1, 1, 1)
  }

  // ---- The closed form ----

  /** Integer division as the source's machine divides: towards zero. */
  function TruncDiv(a: int, b: int): int
    requires b > 0
  {
    if a >= 0 then a / b else -((-a) / b)
  }

  /** `days_to_date`. */
  function DaysToDate(days: int): Date {
    var z := days + 719468;
    var era := TruncDiv(if z >= 0 then z else z - 146096, 146097);
    DateInEra(era, z - era * 146097)
  }

  /** Day `doe` of a 400-year era. */
  function DateInEra(era: int, doe: int): Date {
    var yoe := ClosedYear(doe);
    ClosedDate(yoe + era * 400, doe - (365 * yoe + TruncDiv(yoe, 4) - TruncDiv(yoe, 100)))
  }

  function ClosedYear(doe: int): int {
    TruncDiv(doe - TruncDiv(doe, 1460) + TruncDiv(doe, 36524) - TruncDiv(doe, 146096), 365)
  }

  /** Day `doy` of a year that starts in March. */
  function ClosedDate(y: int, doy: int): Date {
    var mp := TruncDiv(5 * doy + 2, 153);
    var d := doy - TruncDiv(153 * mp + 2, 5) + 1;
    var m := if mp < 10 then mp + 3 else mp - 9;
    Date(if m <= 2 then y + 1 else y, m, d)
  }

  datatype Stamp = Stamp(date: Date, hour: nat, minute: nat)

  /** `format_absolute`, before it is rendered. */
  function Absolute(ts: u64): Stamp {
    Stamp(DateOfDay(ts / 86400), ts / 3600 % 24, ts / 60 % 60)
  }

  function DateOfDay(days: nat): Date { AbsoluteDate(days + 719468) }

  /** The second copy of the arithmetic, on unsigned integers. */
  function AbsoluteDate(z: nat): Date {
    var era := z / 146097;
    var doe := z - era * 146097;
    var yoe := YearOfEra(doe);
    FromMarch(yoe + era * 400, doe - (365 * yoe + yoe / 4 - yoe / 100))
  }

  // ---- Years that start on 1 March ----

  /** Days before year `y` of an era. */
  function DaysBefore(y: nat): nat {
    365 * y + y / 4 - y / 100
  }

  /** Length of the year that starts in March of year `y`: its February belongs to `y + 1`. */
  function YearLength(y: int): int {
    if IsLeap(y + 1) then 366 else 365
  }

  /** Day `doe` of an era is day `doy` of its year `y`. */
  predicate IsDayOf(doe: int, y: int, doy: int) {
    0 <= y < 400 && 0 <= doy < YearLength(y) && doe == DaysBefore(y) + doy
  }

  function YearOfEra(doe: int): int {
    (doe - doe / 1460 + doe / 36524 - doe / 146096) / 365
  }

  /** A day as century, four-year cycle, year and day. */
  lemma Decompose(doe: nat) returns (c: nat, q: nat, r: nat, doy: nat)
    requires doe < 146097
    ensures doe == 36524 * c + 1461 * q + 365 * r + doy
    ensures c <= 3 && q <= 24 && r <= 3 && doy <= 365
    ensures doy == 365 ==> r == 3 && (q == 24 ==> c == 3)
  {
    c := Min(doe / 36524, 3);
    var doc := doe - 36524 * c;
    q := doc / 1461;
    var doq := doc - 1461 * q;
    r := Min(doq / 365, 3);
    doy := doq - 365 * r;
  }

  lemma LeapOfParts(c: nat, q: nat, r: nat)
    requires c <= 3 && q <= 24 && r <= 3
    ensures var y := 100 * c + 4 * q + r;
      && DaysBefore(y) == 36524 * c + 1461 * q + 365 * r
      && (IsLeap(y + 1) <==> r == 3 && (q == 24 ==> c == 3))
  {
    var y := 100 * c + 4 * q + r;
    DivModUnique(y, 4, 25 * c + q, r);
    DivModUnique(y, 100, c, 4 * q + r);
    if r == 3 {
      DivModUnique(y + 1, 4, 25 * c + q + 1, 0);
      if q == 24 { DivModUnique(y + 1, 100, c + 1, 0); } else { DivModUnique(y + 1, 100, c, 4 * q + 4); }
    } else {
      DivModUnique(y + 1, 4, 25 * c + q, r + 1);
    }
  }

  /** The century terms of the closed form count the centuries. */
  lemma CenturyTerms(doe: nat, c: nat, w: nat)
    requires doe < 146097 && c <= 3 && doe == 36524 * c + w && (w < 36524 || (c == 3 && w == 36524))
    ensures doe / 36524 - doe / 146096 == c
  {
    if w < 36524 {
      DivModUnique(doe, 36524, c, w);
      DivModUnique(doe, 146096, 0, doe);
    } else {
      DivModUnique(doe, 36524, 4, 0);
      DivModUnique(doe, 146096, 1, 0);
    }
  }

  /** Subtracting a day for each 1460 makes every year 365 days long, but for a carry. */
  lemma FourYearTerm(doe: nat, k: nat, t: nat)
    requires doe == 1460 * k + t && t < 2 * 1460
    ensures doe / 1460 == k + if t >= 1460 then 1 else 0
  {
    if t >= 1460 { DivModUnique(doe, 1460, k + 1, t - 1460); } else { DivModUnique(doe, 1460, k, t); }
  }

  lemma YearOfParts(doe: nat, c: nat, q: nat, r: nat, doy: nat)
    requires doe < 146097 && doe == 36524 * c + 1461 * q + 365 * r + doy
    requires c <= 3 && q <= 24 && r <= 3 && doy <= 365 && (doy == 365 ==> r == 3 && (q == 24 ==> c == 3))
    ensures YearOfEra(doe) == 100 * c + 4 * q + r
  {
    var y := 100 * c + 4 * q + r;
    var k, t := 25 * c + q, 24 * c + q + 365 * r + doy;
    CenturyTerms(doe, c, 1461 * q + 365 * r + doy);
    FourYearTerm(doe, k, t);
    var carry := if t >= 1460 then 1 else 0;
    DivModUnique(365 * y + doy - carry, 365, y, doy - carry);
  }

  /** The closed form finds the year of a day. */
  lemma YearFound(doe: nat)
    requires doe < 146097
    ensures 0 <= YearOfEra(doe) < 400 && IsDayOf(doe, YearOfEra(doe), doe - DaysBefore(YearOfEra(doe)))
  {
    var c, q, r, doy := Decompose(doe);
    LeapOfParts(c, q, r);
    YearOfParts(doe, c, q, r, doy);
  }

  lemma NextQuotient(y: nat, m: nat)
    requires m > 0
    ensures (y + 1) / m == y / m + if (y + 1) % m == 0 then 1 else 0
  {
    var q, r := y / m, y % m;
    if r + 1 == m { DivModUnique(y + 1, m, q + 1, 0); } else { DivModUnique(y + 1, m, q, r + 1); }
  }

  lemma NextYear(y: nat)
    requires y < 399
    ensures DaysBefore(y) + YearLength(y) == DaysBefore(y + 1)
  {
    NextQuotient(y, 4);
    NextQuotient(y, 100);
    DivModUnique(y + 1, 400, 0, y + 1);
    if (y + 1) % 100 == 0 { DivModUnique(y + 1, 4, 25 * ((y + 1) / 100), 0); }
  }

  lemma {:induction false} LaterYear(y: nat, y': nat)
    requires y < y' < 400
    ensures DaysBefore(y) + YearLength(y) <= DaysBefore(y')
    decreases y'
  {
    NextYear(y' - 1);
    if y < y' - 1 { LaterYear(y, y' - 1); }
  }

  lemma DayOfUnique(doe: nat, y: nat, doy: nat, y': nat, doy': nat)
    requires IsDayOf(doe, y, doy) && IsDayOf(doe, y', doy')
    ensures y == y' && doy == doy'
  {
    if y < y' { LaterYear(y, y'); }
    if y' < y { LaterYear(y', y); }
  }

  /** The next day of an era is the next day of the same year, or the first of the next. */
  lemma NextDayOf(doe: nat, y: nat, doy: nat)
    requires doe < 146096 && IsDayOf(doe, y, doy)
    ensures if doy + 1 < YearLength(y) then IsDayOf(doe + 1, y, doy + 1) else IsDayOf(doe + 1, y + 1, 0)
  {
    assert DaysBefore(399) + YearLength(399) == 146097;
    if doy + 1 >= YearLength(y) { NextYear(y); }
  }

  // ---- Months ----

  /** Day `doy` of the year that starts in March of `year`. */
  function FromMarch(year: int, doy: int): Date {
    var mp := (5 * doy + 2) / 153;
    var m := if mp < 10 then mp + 3 else mp - 9;
    Date(if m <= 2 then year + 1 else year, m, doy - (153 * mp + 2) / 5 + 1)
  }

  /** First day of March-based month `mp`. */
  function MonthStart(mp: nat): nat {
    (153 * mp + 2) / 5
  }

  lemma MonthFound(year: int, doy: nat)
    requires doy < YearLength(year)
    ensures var mp := (5 * doy + 2) / 153;
      mp <= 11 && MonthStart(mp) <= doy && (mp < 11 ==> doy < MonthStart(mp + 1))
  {
    var mp := (5 * doy + 2) / 153;
    assert 153 * mp <= 5 * doy + 2 < 153 * mp + 153;
  }

  /** The months have the lengths of the calendar. */
  lemma MonthLength(year: int, mp: nat)
    requires mp <= 11
    ensures var d := FromMarch(year, MonthStart(mp));
      d.day == 1
      && DaysIn(d.year, d.month) == (if mp < 11 then MonthStart(mp + 1) else YearLength(year)) - MonthStart(mp)
  {
    assert mp == 0 || mp == 1 || mp == 2 || mp == 3 || mp == 4 || mp == 5
      || mp == 6 || mp == 7 || mp == 8 || mp == 9 || mp == 10 || mp == 11;
  }

  lemma SameMonth(year: int, doy: nat, mp: nat)
    requires mp <= 11 && MonthStart(mp) <= doy < YearLength(year) && (mp < 11 ==> doy < MonthStart(mp + 1))
    ensures (5 * doy + 2) / 153 == mp
  {
    DivModUnique(5 * doy + 2, 153, mp, 5 * doy + 2 - 153 * mp);
  }

  lemma FromMarchIsDate(year: int, doy: nat)
    requires doy < YearLength(year)
    ensures IsDate(FromMarch(year, doy))
  {
    MonthFound(year, doy);
    MonthLength(year, (5 * doy + 2) / 153);
    SameMonth(year, MonthStart((5 * doy + 2) / 153), (5 * doy + 2) / 153);
  }

  /** The month and day within a March-based month. */
  lemma DayInMonth(year: int, doy: nat, mp: nat)
    requires mp <= 11 && MonthStart(mp) <= doy < YearLength(year) && (mp < 11 ==> doy < MonthStart(mp + 1))
    ensures var first := FromMarch(year, MonthStart(mp));
      FromMarch(year, doy) == first.(day := doy - MonthStart(mp) + 1)
  {
    SameMonth(year, doy, mp);
    SameMonth(year, MonthStart(mp), mp);
  }

  lemma NextInMonth(year: int, doy: nat, mp: nat)
    requires mp <= 11 && MonthStart(mp) <= doy && doy + 1 < YearLength(year)
    requires mp < 11 ==> doy + 1 < MonthStart(mp + 1)
    ensures FromMarch(year, doy + 1) == NextDate(FromMarch(year, doy))
  {
    DayInMonth(year, doy, mp);
    DayInMonth(year, doy + 1, mp);
    MonthLength(year, mp);
  }

  lemma NextAfterMonth(year: int, doy: nat, mp: nat)
    requires mp <= 11 && MonthStart(mp) <= doy < YearLength(year)
    requires doy + 1 == if mp < 11 then MonthStart(mp + 1) else YearLength(year)
    ensures NextDate(FromMarch(year, doy)) == if mp < 11 then FromMarch(year, doy + 1) else FromMarch(year + 1, 0)
  {
    DayInMonth(year, doy, mp);
    MonthLength(year, mp);
    MonthEnds(year, mp);
  }

  /** The day after the last of a month is the first of the next. */
  lemma MonthEnds(year: int, mp: nat)
    requires mp <= 11
    ensures var first := FromMarch(year, MonthStart(mp));
      NextDate(first.(day := DaysIn(first.year, first.month)))
        == if mp < 11 then FromMarch(year, MonthStart(mp + 1)) else FromMarch(year + 1, 0)
  {
    assert mp == 0 || mp == 1 || mp == 2 || mp == 3 || mp == 4 || mp == 5
      || mp == 6 || mp == 7 || mp == 8 || mp == 9 || mp == 10 || mp == 11;
  }

  // ---- Days as positions in March-based years ----

  datatype March = March(year: int, doy: nat)

  predicate IsMarch(m: March) { m.doy < YearLength(m.year) }

  function ToDate(m: March): Date { FromMarch(m.year, m.doy) }

  function NextMarch(m: March): March {
    if m.doy + 1 < YearLength(m.year) then March(m.year, m.doy + 1) else March(m.year + 1, 0)
  }

  lemma ToDateIsDate(m: March)
    requires IsMarch(m)
    ensures IsDate(ToDate(m))
  {
    FromMarchIsDate(m.year, m.doy);
  }

  /** Stepping one day on in a March-based year steps one day on in the calendar. */
  lemma ToDateNext(m: March)
    requires IsMarch(m)
    ensures ToDate(NextMarch(m)) == NextDate(ToDate(m))
  {
    var mp := (5 * m.doy + 2) / 153;
    MonthFound(m.year, m.doy);
    MonthStartSmall(mp);
    if m.doy + 1 < if mp < 11 then MonthStart(mp + 1) else YearLength(m.year) {
      InMonth(m, mp);
    } else {
      AfterMonth(m, mp);
    }
  }

  lemma InMonth(m: March, mp: nat)
    requires mp <= 11 && MonthStart(mp) <= m.doy && m.doy + 1 < YearLength(m.year)
    requires mp < 11 ==> m.doy + 1 < MonthStart(mp + 1)
    ensures ToDate(NextMarch(m)) == NextDate(ToDate(m))
  {
    NextInMonth(m.year, m.doy, mp);
  }

  lemma AfterMonth(m: March, mp: nat)
    requires mp <= 11 && MonthStart(mp) <= m.doy < YearLength(m.year) && (mp < 11 ==> MonthStart(mp + 1) <= 337)
    requires m.doy + 1 == if mp < 11 then MonthStart(mp + 1) else YearLength(m.year)
    ensures ToDate(NextMarch(m)) == NextDate(ToDate(m))
  {
    NextAfterMonth(m.year, m.doy, mp);
  }

  lemma MonthStartSmall(mp: nat)
    requires mp <= 11
    ensures MonthStart(mp) <= 337 && (mp < 11 ==> MonthStart(mp + 1) <= 337)
  {
  }

  /** Day `days` is the given day of its March-based year. */
  ghost predicate StandsAt(days: int, m: March) {
    var z := days + 719468;
    IsDayOf(z % 146097, m.year - z / 146097 * 400, m.doy)
  }

  lemma ModPeriod(y: int, k: int, m: nat)
    requires m > 0
    ensures (y + k * m) % m == y % m
  {
    DivModUnique(y + k * m, m, y / m + k, y % m);
  }

  lemma LeapPeriod(y: int, era: int)
    ensures IsLeap(y + era * 400) == IsLeap(y)
  {
    ModPeriod(y, 100 * era, 4);
    ModPeriod(y, 4 * era, 100);
    ModPeriod(y, era, 400);
  }

  lemma StandsNext(days: int, m: March)
    requires StandsAt(days, m)
    ensures IsMarch(m) && StandsAt(days + 1, NextMarch(m))
  {
    var z := days + 719468;
    var era, doe := z / 146097, z % 146097;
    var y := m.year - era * 400;
    LeapPeriod(y + 1, era);
    if doe < 146096 {
      assert (z + 1) / 146097 == era && (z + 1) % 146097 == doe + 1;
      NextDayOf(doe, y, m.doy);
    } else {
      assert (z + 1) / 146097 == era + 1 && (z + 1) % 146097 == 0;
      assert IsDayOf(146096, 399, 365);
      DayOfUnique(doe, y, m.doy, 399, 365);
    }
  }

  lemma StandsUnique(days: int, m: March, m': March)
    requires StandsAt(days, m) && StandsAt(days, m')
    ensures m == m'
  {
    var z := days + 719468;
    DayOfUnique(z % 146097, m.year - z / 146097 * 400, m.doy, m'.year - z / 146097 * 400, m'.doy);
  }

  lemma NextStand(days: int, m: March, m': March)
    requires StandsAt(days, m) && StandsAt(days + 1, m')
    ensures IsMarch(m) && m' == NextMarch(m)
  {
    StandsNext(days, m);
    StandsUnique(days + 1, m', NextMarch(m));
  }

  // ---- The theorem ----

  lemma EraFloors(z: int)
    ensures TruncDiv(if z >= 0 then z else z - 146096, 146097) == z / 146097
    ensures z - z / 146097 * 146097 == z % 146097
  {
    var q, r := z / 146097, z % 146097;
    if z < 0 { DivModUnique(146096 - z, 146097, -q, 146096 - r); }
  }

  lemma ClosedYearIs(doe: nat)
    requires doe < 146097
    ensures ClosedYear(doe) == YearOfEra(doe)
  {
  }

  lemma ClosedDateIs(y: int, doy: nat)
    ensures ClosedDate(y, doy) == FromMarch(y, doy)
  {
  }

  /** The closed form within an era. */
  lemma DateInEraIs(era: int, doe: nat) returns (m: March)
    requires doe < 146097
    ensures DateInEra(era, doe) == ToDate(m)
    ensures m.year == YearOfEra(doe) + era * 400
    ensures IsDayOf(doe, m.year - era * 400, m.doy)
  {
    YearFound(doe);
    ClosedYearIs(doe);
    var y := YearOfEra(doe);
    m := March(y + era * 400, doe - DaysBefore(y));
    ClosedDateIs(m.year, m.doy);
  }

  lemma DayInEra(days: int) returns (m: March)
    ensures StandsAt(days, m)
    ensures var z := days + 719468; DateInEra(z / 146097, z % 146097) == ToDate(m)
  {
    var z := days + 719468;
    m := DateInEraIs(z / 146097, z % 146097);
  }

  lemma DateFound(days: int) returns (m: March)
    ensures StandsAt(days, m) && DaysToDate(days) == ToDate(m)
  {
    m := DayInEra(days);
    EraFloors(days + 719468);
  }

  /** Every day number is a valid date, and the next day number is the next date. */
  lemma StepsThroughCalendar(days: int)
    ensures IsDate(DaysToDate(days))
    ensures DaysToDate(days + 1) == NextDate(DaysToDate(days))
  {
    var m := DateFound(days);
    var m' := DateFound(days + 1);
    NextStand(days, m, m');
    ToDateNext(m);
    ToDateIsDate(m);
  }

  /** The date reached by stepping `n` days on. */
  function Forward(d: Date, n: nat): Date
    decreases n
  {
    if n == 0 then d else NextDate(Forward(d, n - 1))
  }

  lemma Epoch()
    ensures DaysToDate(0) == Date(1970, 1, 1)
  {
    DivModUnique(719468, 146097, 4, 135080);
  }

  lemma {:induction false} StepsForward(date: int -> Date, start: int, n: nat)
    requires forall d :: date(d + 1) == NextDate(date(d))
    ensures date(start + n) == Forward(date(start), n)
    decreases n
  {
    if n > 0 {
      StepsForward(date, start, n - 1);
      assert date(start + (n - 1) + 1) == NextDate(date(start + (n - 1)));
    }
  }

  /** The closed form is the day-by-day calendar, from any day on. */
  lemma DaysToDateSteps(start: int, n: nat)
    ensures DaysToDate(start + n) == Forward(DaysToDate(start), n)
  {
    forall d: int ensures DaysToDate(d + 1) == NextDate(DaysToDate(d)) { StepsThroughCalendar(d); }
    StepsForward(DaysToDate, start, n);
  }

  /** Dates order as day numbers do, so no two days share a date. */
  predicate Before(a: Date, b: Date) {
    a.year < b.year || (a.year == b.year && (a.month < b.month || (a.month == b.month && a.day < b.day)))
  }

  lemma NextIsLater(a: Date, b: Date)
    requires IsDate(b) && (a == b || Before(a, b))
    ensures Before(a, NextDate(b))
  {
  }

  lemma {:induction false} DatesIncrease(a: int, b: int)
    requires a < b
    ensures Before(DaysToDate(a), DaysToDate(b))
    decreases b - a
  {
    if a < b - 1 { DatesIncrease(a, b - 1); }
    StepsThroughCalendar(b - 1);
    assert b - 1 + 1 == b;
    NextIsLater(DaysToDate(a), DaysToDate(b - 1));
  }

  lemma SameDate(days: nat)
    ensures DateOfDay(days) == DaysToDate(days)
  {
    EraFloors(days + 719468);
    AbsoluteInEra(days + 719468);
  }

  /** The overlay's copy of the arithmetic gives the date of the timestamp's day. */
  lemma AbsoluteIsDate(ts: u64, s: Stamp)
    requires s == Absolute(ts)
    ensures s.date == DaysToDate(ts / 86400)
  {
    SameDate(ts / 86400);
  }

  /** It also gives the hour and minute of the day. */
  lemma AbsoluteIsTime(ts: u64, s: Stamp)
    requires s == Absolute(ts)
    ensures IsTimeOfDay(ts, s.hour, s.minute)
  {
    TimeOfDay(ts, s.hour, s.minute);
  }

  ghost predicate IsTimeOfDay(ts: nat, hour: nat, minute: nat) {
    hour < 24 && minute < 60 && exists day: nat, second: nat :: second < 60 && ts == Instant(day, hour, minute, second)
  }

  function Instant(day: nat, hour: nat, minute: nat, second: nat): nat {
    day * 86400 + hour * 3600 + minute * 60 + second
  }

  lemma AbsoluteMarch(z: nat, y: nat, m: March)
    requires y == YearOfEra(z % 146097) && m.year == y + z / 146097 * 400 && z % 146097 == DaysBefore(y) + m.doy
    ensures AbsoluteDate(z) == ToDate(m)
  {
    assert z - z / 146097 * 146097 == z % 146097;
  }

  /** Without the truncating divisions the copy reads the same. */
  lemma AbsoluteInEra(z: nat)
    ensures AbsoluteDate(z) == DateInEra(z / 146097, z % 146097)
  {
    var m := DateInEraIs(z / 146097, z % 146097);
    AbsoluteMarch(z, m.year - z / 146097 * 400, m);
  }

  lemma TimeOfDay(ts: u64, hour: nat, minute: nat)
    requires hour == ts / 3600 % 24 && minute == ts / 60 % 60
    ensures IsTimeOfDay(ts, hour, minute)
  {
    var h := ts / 60 / 60;
    assert ts / 3600 == h;
    assert ts == Instant(h / 24, hour, minute, ts % 60);
  }
}
