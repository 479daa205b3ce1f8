/** Calendar conversion: days and seconds since 1970-01-01 to civil dates and back,
    against the Gregorian calendar as the succession of days. */
module Calendar {
  import opened Words

  datatype Option<T> = None | Some(value: T)

  datatype Date = Date(year: int, month: int, day: int)

  // ---- The Gregorian calendar ----

  predicate IsLeap(y: int) { (y % 4 == 0 && y % 100 != 0) || y % 400 == 0 }

  function MonthLength(y: int, m: int): int {
    if m == 2 then (if IsLeap(y) then 29 else 28)
    else if m == 4 || m == 6 || m == 9 || m == 11 then 30
    else 31
  }

  predicate IsDate(d: Date) { 1 <= d.month <= 12 && 1 <= d.day <= MonthLength(d.year, d.month) }

  function NextDay(d: Date): Date {
    if d.day < MonthLength(d.year, d.month) then d.(day := d.day + 1)
    else if d.month < 12 then Date(d.year, d.month + 1, 1)
    else Date(d.year + 1, 1, 1)
  }

  // ---- The code's arithmetic ----

  /** Division as C does it, rounding toward zero. */
  function Quot(a: int, b: int): int
    requires b > 0
  {
    if a >= 0 then a / b else -((-a) / b)
  }

  function Rem(a: int, b: int): int
    requires b > 0
  {
    a - Quot(a, b) * b
  }

  /** The conversion of a long to an int. */
  function ToInt(x: int): i32 { Signed32(x % 0x1_0000_0000) }

  function YearOfEra(doe: int): int { (doe - doe / 1460 + doe / 36524 - doe / 146096) / 365 }

  /** Days before year y of an era, years starting in March. */
  function YearStart(y: int): int { 365 * y + y / 4 - y / 100 }

  /** Days before month mp of a year that starts in March. */
  function MonthStart(mp: int): int { (153 * mp + 2) / 5 }

  /** `icsos_civil_from_days`, before the results are stored as ints. */
  function CivilFromDays(days: int): Date {
    var z := days + 719468;
    var era := Quot(if z >= 0 then z else z - 146096, 146097);
    var doe := z - era * 146097;
    var yoe := YearOfEra(doe);
    var doy := doe - YearStart(yoe);
    var mp := (5 * doy + 2) / 153;
    var m := mp + (if mp < 10 then 3 else -9);
    Date(yoe + era * 400 + (if m <= 2 then 1 else 0), m, doy - MonthStart(mp) + 1)
  }

  /** The day arithmetic of `mktime`. */
  function DaysFromCivil(d: Date): int {
    var y := if d.month <= 2 then d.year - 1 else d.year;
    var m := if d.month <= 2 then d.month + 11 else d.month - 1;
    var era := Quot(if y >= 0 then y else y - 399, 400);
    var yoe := y - era * 400;
    var doy := MonthStart(m - 2) + d.day - 1;
    era * 146097 + (YearStart(yoe) + doy) - 719468
  }

  // ---- The era ----

  lemma EraIsFloor(z: int)
    ensures Quot(if z >= 0 then z else z - 146096, 146097) == z / 146097
  {
  }

  lemma YearEraIsFloor(y: int)
    ensures Quot(if y >= 0 then y else y - 399, 400) == y / 400
  {
  }

  /** Day `doy` of the year that is c centuries, q leap cycles and r years into the era
      is a day of that year: the last day exists only in leap years. */
  predicate IsDayOfYear(c: int, q: int, r: int, doy: int) {
    && 0 <= c <= 3 && 0 <= q <= 24 && 0 <= r <= 3 && 0 <= doy <= 365
    && (doy == 365 ==> r == 3 && (q < 24 || c == 3))
  }

  /** Every day of the era is a day of one of its years. */
  lemma SplitEra(doe: int) returns (c: int, q: int, r: int, doy: int)
    requires 0 <= doe <= 146096
    ensures IsDayOfYear(c, q, r, doy) && doe == 36524 * c + 1461 * q + 365 * r + doy
  {
    c := if doe == 146096 then 3 else doe / 36524;
    var inCentury := doe - 36524 * c;
    q := if inCentury == 36524 then 24 else inCentury / 1461;
    var inCycle := inCentury - 1461 * q;
    r := if inCycle == 1460 then 3 else inCycle / 365;
    doy := inCycle - 365 * r;
  }

  lemma YearStartSplit(c: int, q: int, r: int)
    requires 0 <= c <= 3 && 0 <= q <= 24 && 0 <= r <= 3
    ensures YearStart(100 * c + 4 * q + r) == 36524 * c + 1461 * q + 365 * r
  {
  }

  lemma CenturyFound(c: int, q: int, r: int, doy: int)
    requires IsDayOfYear(c, q, r, doy)
    ensures var doe := 36524 * c + 1461 * q + 365 * r + doy;
            doe / 36524 - doe / 146096 == c
  {
  }

  /** The formula finds the year of the era for every one of its days. */
  lemma YearFound(c: int, q: int, r: int, doy: int)
    requires IsDayOfYear(c, q, r, doy)
    ensures YearOfEra(36524 * c + 1461 * q + 365 * r + doy) == 100 * c + 4 * q + r
  {
    var doe := 36524 * c + 1461 * q + 365 * r + doy;
    CenturyFound(c, q, r, doy);
    var e := 24 * c + q + 365 * r + doy;
    var more := if e >= 1460 then 1 else 0;
    DivModUnique(doe, 1460, 25 * c + q + more, e - 1460 * more);
  }

  lemma MonthFound(doy: int)
    requires 0 <= doy <= 365
    ensures var mp := (5 * doy + 2) / 153;
            0 <= mp <= 11 && MonthStart(mp) <= doy < (if mp == 11 then 366 else MonthStart(mp + 1))
  {
  }

  // ---- Years that start in March ----

  /** Day `doy` of the year beginning in March of civil year y. */
  function FromMarch(y: int, doy: int): Date {
    var mp := (5 * doy + 2) / 153;
    var m := mp + (if mp < 10 then 3 else -9);
    Date(y + (if m <= 2 then 1 else 0), m, doy - MonthStart(mp) + 1)
  }

  function MarchYear(d: Date): int { if d.month <= 2 then d.year - 1 else d.year }

  function MarchDay(d: Date): int {
    MonthStart(if d.month <= 2 then d.month + 9 else d.month - 3) + d.day - 1
  }

  predicate IsMarchDay(y: int, doy: int) { 0 <= doy <= 365 && (doy == 365 ==> IsLeap(y + 1)) }

  lemma FromMarchIsDate(y: int, doy: int)
    requires IsMarchDay(y, doy)
    ensures IsDate(FromMarch(y, doy)) && MarchYear(FromMarch(y, doy)) == y && MarchDay(FromMarch(y, doy)) == doy
  {
    hide IsLeap;
    MonthFound(doy);
  }

  lemma ToMarchAndBack(d: Date)
    requires IsDate(d)
    ensures IsMarchDay(MarchYear(d), MarchDay(d)) && FromMarch(MarchYear(d), MarchDay(d)) == d
  {
    hide IsLeap;
  }

  lemma DropMultiple(k: int, m: nat, x: int)
    requires m > 0
    ensures (k * m + x) % m == x % m
  {
    MulDistributes(k, x / m, m);
    DivModUnique(k * m + x, m, k + x / m, x % m);
  }

  /** A year of the era is followed by a 29 February exactly when the split says so. */
  lemma LeapInEra(era: int, c: int, q: int, r: int)
    requires 0 <= c <= 3 && 0 <= q <= 24 && 0 <= r <= 3
    ensures IsLeap(400 * era + 100 * c + 4 * q + r + 1) <==> r == 3 && (q < 24 || c == 3)
  {
    var y := 400 * era + 100 * c + 4 * q + r + 1;
    DropMultiple(100 * era + 25 * c + q, 4, r + 1);
    DropMultiple(4 * era + c, 100, 4 * q + r + 1);
    DropMultiple(era, 400, 100 * c + 4 * q + r + 1);
  }

  /** Days since 1970-01-01 of a day given by its March year. */
  function MarchDays(y: int, doy: int): int {
    (y / 400) * 146097 + YearStart(y % 400) + doy - 719468
  }

  lemma DaysFromMarch(d: Date)
    ensures DaysFromCivil(d) == MarchDays(MarchYear(d), MarchDay(d))
  {
    YearEraIsFloor(MarchYear(d));
  }

  lemma CivilFromMarch(days: int, c: int, q: int, r: int, doy: int)
    requires IsDayOfYear(c, q, r, doy)
    requires (days + 719468) % 146097 == 36524 * c + 1461 * q + 365 * r + doy
    ensures CivilFromDays(days) == FromMarch(400 * ((days + 719468) / 146097) + 100 * c + 4 * q + r, doy)
  {
    hide YearOfEra, YearStart, MonthStart;
    EraIsFloor(days + 719468);
    YearFound(c, q, r, doy);
    YearStartSplit(c, q, r);
  }

  /** The date the code computes is a date, and its day number is the one it came from. */
  lemma CivilThenDays(days: int)
    ensures IsDate(CivilFromDays(days)) && DaysFromCivil(CivilFromDays(days)) == days
  {
    hide YearOfEra, YearStart, MonthStart, IsLeap, FromMarch, CivilFromDays, DaysFromCivil, MarchYear, MarchDay, IsDate;
    var z := days + 719468;
    var era := z / 146097;
    var c, q, r, doy := SplitEra(z % 146097);
    var yoe := 100 * c + 4 * q + r;
    var y := 400 * era + yoe;
    LeapInEra(era, c, q, r);
    CivilFromMarch(days, c, q, r, doy);
    FromMarchIsDate(y, doy);
    DaysFromMarch(CivilFromDays(days));
    DivModUnique(y, 400, era, yoe);
    YearStartSplit(c, q, r);
  }

  /** The other way round: every civil date survives the trip to its day number. */
  lemma DaysThenCivil(d: Date)
    requires IsDate(d)
    ensures CivilFromDays(DaysFromCivil(d)) == d
  {
    hide YearOfEra, YearStart, MonthStart, IsLeap, FromMarch, CivilFromDays, DaysFromCivil, MarchYear, MarchDay, IsDate;
    ToMarchAndBack(d);
    DaysFromMarch(d);
    var y, doy := MarchYear(d), MarchDay(d);
    var era := y / 400;
    var c, q, r := SplitYear(y % 400);
    LeapInEra(era, c, q, r);
    YearStartSplit(c, q, r);
    var doe := 36524 * c + 1461 * q + 365 * r + doy;
    DivModUnique(DaysFromCivil(d) + 719468, 146097, era, doe);
    CivilFromMarch(DaysFromCivil(d), c, q, r, doy);
  }

  lemma SplitYear(yoe: int) returns (c: int, q: int, r: int)
    requires 0 <= yoe <= 399
    ensures yoe == 100 * c + 4 * q + r && 0 <= c <= 3 && 0 <= q <= 24 && 0 <= r <= 3
  {
    c, q, r := yoe / 100, (yoe % 100) / 4, yoe % 4;
  }

  /** The last day of the year that begins in March of year y. */
  function LastMarchDay(y: int): int { if IsLeap(y + 1) then 365 else 364 }

  lemma NewYear(y: int)
    ensures MarchDays(y + 1, 0) == MarchDays(y, LastMarchDay(y)) + 1
  {
    hide IsLeap, YearStart;
    var era := y / 400;
    var c, q, r := SplitYear(y % 400);
    LeapInEra(era, c, q, r);
    YearStartSplit(c, q, r);
    if r < 3 {
      YearStartSplit(c, q, r + 1);
      DivModUnique(y + 1, 400, era, 100 * c + 4 * q + r + 1);
    } else if q < 24 {
      YearStartSplit(c, q + 1, 0);
      DivModUnique(y + 1, 400, era, 100 * c + 4 * (q + 1));
    } else if c < 3 {
      YearStartSplit(c + 1, 0, 0);
      DivModUnique(y + 1, 400, era, 100 * (c + 1));
    } else {
      YearStartSplit(0, 0, 0);
      DivModUnique(y + 1, 400, era + 1, 0);
    }
  }

  lemma NextDayInMarch(d: Date)
    requires IsDate(d)
    ensures IsDate(NextDay(d))
    ensures var y, doy := MarchYear(d), MarchDay(d);
            && (doy < LastMarchDay(y) ==> MarchYear(NextDay(d)) == y && MarchDay(NextDay(d)) == doy + 1)
            && (doy >= LastMarchDay(y) ==>
                  doy == LastMarchDay(y) && MarchYear(NextDay(d)) == y + 1 && MarchDay(NextDay(d)) == 0)
  {
    hide IsLeap;
  }

  /** The day number goes up by one from each day to the next. */
  lemma DaysOfNextDay(d: Date)
    requires IsDate(d)
    ensures IsDate(NextDay(d)) && DaysFromCivil(NextDay(d)) == DaysFromCivil(d) + 1
  {
    hide IsLeap, IsDate, NextDay, DaysFromCivil, MarchYear, MarchDay, LastMarchDay, YearStart;
    NextDayInMarch(d);
    DaysFromMarch(d);
    DaysFromMarch(NextDay(d));
    NewYear(MarchYear(d));
  }

  lemma Epoch()
    ensures IsDate(Date(1970, 1, 1)) && DaysFromCivil(Date(1970, 1, 1)) == 0
  {
  }

  /** So the code counts exactly the days of the Gregorian calendar, from the epoch, in
      both directions. */
  lemma CivilIsGregorian(days: int)
    ensures CivilFromDays(0) == Date(1970, 1, 1)
    ensures CivilFromDays(days + 1) == NextDay(CivilFromDays(days))
  {
    hide IsDate, NextDay, DaysFromCivil, CivilFromDays;
    Epoch();
    DaysThenCivil(Date(1970, 1, 1));
    CivilThenDays(days);
    DaysOfNextDay(CivilFromDays(days));
    DaysThenCivil(NextDay(CivilFromDays(days)));
  }

  // ---- Broken-down time ----

  datatype Tm = Tm(sec: int, min: int, hour: int, mday: int, mon: int, year: i32, wday: int, yday: int)

  const CUMULATIVE: seq<int> := [0, 31, 59, 90, 120, 151, 181, 212, 243, 273, 304, 334]

  /** Days before a month, by the table; `% 4 == 0` and the like do not depend on how
      negative years are divided. */
  function YearDay(d: Date): int
    requires 1 <= d.month <= 12
  {
    CUMULATIVE[d.month - 1] + d.day - 1 + (if IsLeap(d.year) && d.month > 2 then 1 else 0)
  }

  function WeekDay(days: int): int { Rem(Rem(Rem(days, 7) + 7, 7) + 4, 7) }

  function DayOf(t: int): int {
    var days := Quot(t, 86400);
    if t - days * 86400 < 0 then days - 1 else days
  }

  function SecondsOf(t: int): int { t - DayOf(t) * 86400 }

  /** `localtime`; a null pointer means time 0. */
  function LocalTime(t: Option<i64>): Tm {
    var v: int := if t.Some? then t.value else 0;
    var days, rem := DayOf(v), SecondsOf(v);
    var date := CivilFromDays(days);
    CivilThenDays(days);
    var civil := date.(year := ToInt(date.year));
    Tm(Rem(rem, 60), Rem(Quot(rem, 60), 60), Quot(rem, 3600), date.day, date.month - 1,
       ToInt(civil.year - 1900), WeekDay(days), YearDay(civil))
  }

  /** `mktime` */
  function MkTime(tm: Tm): int {
    DaysFromCivil(Date(ToInt(tm.year + 1900), tm.mon + 1, tm.mday)) * 86400
    + tm.hour * 3600 + tm.min * 60 + tm.sec
  }

  lemma DayAndSeconds(t: int)
    ensures DayOf(t) == t / 86400 && SecondsOf(t) == t % 86400
  {
  }

  lemma ClockAdds(rem: int)
    requires 0 <= rem < 86400
    ensures Quot(rem, 3600) * 3600 + Rem(Quot(rem, 60), 60) * 60 + Rem(rem, 60) == rem
    ensures 0 <= Quot(rem, 3600) < 24 && 0 <= Rem(Quot(rem, 60), 60) < 60 && 0 <= Rem(rem, 60) < 60
  {
  }

  predicate FitsInt(x: int) { -0x8000_0000 <= x < 0x8000_0000 }

  lemma ToIntProperties(x: int)
    ensures FitsInt(x) ==> ToInt(x) == x
    ensures (x - ToInt(x)) % 0x1_0000_0000 == 0
    ensures !FitsInt(x) ==> x - ToInt(x) >= 0x1_0000_0000 || x - ToInt(x) <= -0x1_0000_0000
  {
  }

  /** Storing the year as an offset from 1900 loses nothing that fits an int. */
  lemma YearOffset(y: i32)
    ensures ToInt(ToInt(y - 1900) + 1900) == y
  {
  }

  /** Four hundred years are 146097 days, to within five days at any point. */
  lemma DaysPerYear(y: int, doy: int)
    ensures -2000 < 400 * (MarchDays(y, doy) + 719468 - doy) - 146097 * y < 2000
  {
    var era, yoe := y / 400, y % 400;
    assert y == 400 * era + yoe;
  }

  /** Dates with the same month and day, thousands of millions of years apart, are not
      the same day. */
  lemma FarYearsDiffer(d: Date, y: int)
    requires 1 <= d.month <= 12
    requires d.year - y >= 0x1_0000_0000 || d.year - y <= -0x1_0000_0000
    ensures DaysFromCivil(d) != DaysFromCivil(d.(year := y))
  {
    hide DaysFromCivil, MarchDays;
    var d' := d.(year := y);
    DaysFromMarch(d);
    DaysFromMarch(d');
    DaysPerYear(MarchYear(d), MarchDay(d));
    DaysPerYear(MarchYear(d'), MarchDay(d'));
  }

  lemma LocalDate(t: i64)
    ensures var date, tm := CivilFromDays(DayOf(t)), LocalTime(Some(t));
            && IsDate(date)
            && Date(ToInt(tm.year + 1900), tm.mon + 1, tm.mday) == date.(year := ToInt(date.year))
            && tm.hour * 3600 + tm.min * 60 + tm.sec == SecondsOf(t)
  {
    hide CivilFromDays, DaysFromCivil, IsDate, Quot, Rem, WeekDay, ToInt, DayOf, SecondsOf;
    CivilThenDays(DayOf(t));
    DayAndSeconds(t);
    ClockAdds(SecondsOf(t));
    YearOffset(ToInt(CivilFromDays(DayOf(t)).year));
  }

  /** `mktime(localtime(t)) == t`, for negative times too, if and only if the year fits
      the int it is stored in. */
  lemma RoundTripIff(t: i64)
    ensures MkTime(LocalTime(Some(t))) == t <==> FitsInt(CivilFromDays(DayOf(t)).year)
  {
    hide CivilFromDays, DaysFromCivil, IsDate, ToInt, DayOf, SecondsOf, LocalTime;
    var date := CivilFromDays(DayOf(t));
    LocalDate(t);
    CivilThenDays(DayOf(t));
    DayAndSeconds(t);
    ToIntProperties(date.year);
    if !FitsInt(date.year) {
      MonthInRange(date);
      FarYearsDiffer(date, ToInt(date.year));
    }
  }

  lemma MonthInRange(d: Date)
    requires IsDate(d)
    ensures 1 <= d.month <= 12 && 1 <= d.day <= 31
  {
  }

  predicate IsClock(tm: Tm) { 0 <= tm.hour < 24 && 0 <= tm.min < 60 && 0 <= tm.sec < 60 }

  /** Day numbers of years that fit an int are far from overflowing a 64-bit time. */
  lemma TimeFits(d: Date)
    requires IsDate(d) && FitsInt(d.year)
    ensures -0x200_0000_0000 < DaysFromCivil(d) < 0x200_0000_0000
  {
    hide DaysFromCivil, MarchDays, IsLeap;
    DaysFromMarch(d);
    DaysPerYear(MarchYear(d), MarchDay(d));
  }

  lemma ClockSplits(h: int, m: int, s: int)
    requires 0 <= h < 24 && 0 <= m < 60 && 0 <= s < 60
    ensures var rem := h * 3600 + m * 60 + s;
            Quot(rem, 3600) == h && Rem(Quot(rem, 60), 60) == m && Rem(rem, 60) == s && 0 <= rem < 86400
  {
    var rem := h * 3600 + m * 60 + s;
    DivModUnique(rem, 3600, h, m * 60 + s);
    DivModUnique(rem, 60, h * 60 + m, s);
    DivModUnique(h * 60 + m, 60, h, m);
  }

  /** And `localtime` recovers every civil date and time of day that `mktime` was given. */
  lemma LocalTimeInvertsMkTime(tm: Tm)
    requires IsDate(Date(tm.year + 1900, tm.mon + 1, tm.mday)) && FitsInt(tm.year + 1900) && IsClock(tm)
    ensures -TWO_63 <= MkTime(tm) < TWO_63
    ensures var tm' := LocalTime(Some(MkTime(tm)));
            && tm'.year == tm.year && tm'.mon == tm.mon && tm'.mday == tm.mday
            && tm'.hour == tm.hour && tm'.min == tm.min && tm'.sec == tm.sec
  {
    hide CivilFromDays, DaysFromCivil, IsDate, Quot, Rem, WeekDay, ToInt, DayOf, SecondsOf;
    var date := Date(tm.year + 1900, tm.mon + 1, tm.mday);
    ToIntProperties(tm.year + 1900);
    ToIntProperties(tm.year);
    TimeFits(date);
    DaysThenCivil(date);
    ClockSplits(tm.hour, tm.min, tm.sec);
    var rem := tm.hour * 3600 + tm.min * 60 + tm.sec;
    DayAndSeconds(MkTime(tm));
    DivModUnique(MkTime(tm), 86400, DaysFromCivil(date), rem);
  }

  /** 1970-01-01 was a Thursday, and the weekday advances by one from day to day. */
  lemma WeekDayAdvances(days: int)
    ensures 0 <= WeekDay(days) < 7 && WeekDay(0) == 4
    ensures WeekDay(days + 1) == (WeekDay(days) + 1) % 7
  {
    hide WeekDay;
    WeekDayIsFloor(0);
    WeekDayIsFloor(days);
    WeekDayIsFloor(days + 1);
  }

  lemma RemOfSum(x: int)
    requires -7 < x
    ensures Rem(x + 7, 7) == x % 7
  {
    DivModUnique(x + 7, 7, x / 7 + 1, x % 7);
  }

  lemma RemCongruent(x: int)
    ensures -7 < Rem(x, 7) < 7 && Rem(x, 7) % 7 == x % 7
  {
    if x < 0 {
      var q, r := x / 7, x % 7;
      DivModUnique(-x, 7, if r == 0 then -q else -q - 1, if r == 0 then 0 else 7 - r);
    }
  }

  lemma WeekDayIsFloor(days: int)
    ensures WeekDay(days) == (days + 4) % 7
  {
    hide Rem;
    RemCongruent(days);
    RemOfSum(Rem(days, 7));
    FourOn(days);
  }

  lemma FourOn(days: int)
    ensures Rem(days % 7 + 4, 7) == (days + 4) % 7
  {
    var a := days % 7;
    var over := if a + 4 >= 7 then 1 else 0;
    DivModUnique(days + 4, 7, days / 7 + over, a + 4 - 7 * over);
    DivModUnique(a + 4, 7, over, a + 4 - 7 * over);
  }

  /** The table-based day of the year is the distance from 1 January. */
  lemma YearDayIsDistance(d: Date)
    requires IsDate(d)
    ensures YearDay(d) == DaysFromCivil(d) - DaysFromCivil(Date(d.year, 1, 1))
  {
    hide IsLeap, MarchDays, DaysFromCivil;
    var jan1 := Date(d.year, 1, 1);
    DaysFromMarch(d);
    DaysFromMarch(jan1);
    if d.month > 2 {
      NewYear(d.year - 1);
      MarchDaysAdd(d.year - 1, MarchDay(jan1), LastMarchDay(d.year - 1));
      MarchDaysAdd(d.year, 0, MarchDay(d));
    } else {
      MarchDaysAdd(d.year - 1, MarchDay(jan1), MarchDay(d));
    }
  }

  lemma MarchDaysAdd(y: int, a: int, b: int)
    ensures MarchDays(y, b) == MarchDays(y, a) + (b - a)
  {
  }

  // ---- When the year fits ----

  function NewYearsDay(y: int): int { DaysFromCivil(Date(y, 1, 1)) }

  lemma YearDayBounds(d: Date)
    requires IsDate(d)
    ensures 0 <= YearDay(d) <= YearDay(Date(d.year, 12, 31))
  {
    hide IsLeap;
  }

  /** A date lies between the New Year's Days around it. */
  lemma WithinYear(d: Date)
    requires IsDate(d)
    ensures NewYearsDay(d.year) <= DaysFromCivil(d) < NewYearsDay(d.year + 1)
  {
    hide DaysFromCivil, YearDay, IsLeap;
    var last := Date(d.year, 12, 31);
    YearDayIsDistance(d);
    YearDayIsDistance(last);
    YearDayBounds(d);
    DaysOfNextDay(last);
    assert NextDay(last) == Date(d.year + 1, 1, 1);
  }

  lemma {:induction false} NewYearsInOrder(y: int, z: int)
    requires y <= z
    ensures NewYearsDay(y) <= NewYearsDay(z)
    decreases z - y
  {
    hide NewYearsDay;
    if y < z {
      NewYearsInOrder(y, z - 1);
      WithinYear(Date(z - 1, 1, 1));
    }
  }

  lemma YearBeforeIff(days: int, y: int)
    ensures CivilFromDays(days).year < y <==> days < NewYearsDay(y)
  {
    hide NewYearsDay, CivilFromDays, DaysFromCivil, IsDate;
    var d := CivilFromDays(days);
    CivilThenDays(days);
    WithinYear(d);
    if d.year < y {
      NewYearsInOrder(d.year + 1, y);
    } else {
      NewYearsInOrder(y, d.year);
    }
  }

  lemma OutermostYears()
    ensures NewYearsDay(-0x8000_0000) == -784353015833 && NewYearsDay(0x8000_0000) == 784351576777
  {
    hide DaysFromCivil;
    DaysFromMarch(Date(-0x8000_0000, 1, 1));
    DaysFromMarch(Date(0x8000_0000, 1, 1));
    DivModUnique(-0x8000_0001, 400, -5368710, 351);
    DivModUnique(0x7FFF_FFFF, 400, 5368709, 47);
  }

  /** The round trip in terms of the time alone: it holds between the New Year's Days at the two
      ends of the years an int can hold. */
  lemma RoundTripBounds(t: i64)
    ensures MkTime(LocalTime(Some(t))) == t <==> -67768100567971200 <= t < 67767976233532800
  {
    hide MkTime, LocalTime, CivilFromDays, NewYearsDay, DayOf, SecondsOf;
    RoundTripIff(t);
    DayAndSeconds(t);
    OutermostYears();
    YearBeforeIff(DayOf(t), -0x8000_0000);
    YearBeforeIff(DayOf(t), 0x8000_0000);
  }

  // ---- Every field ----

  lemma ClockIs(t: int)
    ensures var rem := t % 86400;
            Quot(rem, 3600) == rem / 3600 && Rem(Quot(rem, 60), 60) == t % 3600 / 60 && Rem(rem, 60) == t % 60
  {
    var days, rem := t / 86400, t % 86400;
    DivModUnique(t, 3600, 24 * days + rem / 3600, rem % 3600);
    DivModUnique(t, 60, 1440 * days + rem / 60, rem % 60);
    DivModUnique(rem / 60, 60, rem / 3600, rem % 3600 / 60);
  }

  /** The weekday and the time of day of any time, before the epoch too, from the time alone. */
  lemma LocalClock(t: i64)
    ensures var tm := LocalTime(Some(t));
            && tm.wday == (t / 86400 + 4) % 7
            && tm.hour == t % 86400 / 3600 && tm.min == t % 3600 / 60 && tm.sec == t % 60
  {
    hide CivilFromDays, YearDay, IsDate, Quot, Rem, WeekDay, ToInt, DayOf, SecondsOf;
    DayAndSeconds(t);
    CivilThenDays(DayOf(t));
    WeekDayIsFloor(DayOf(t));
    ClockIs(t);
  }

  /** The date of any time whose year an int can hold is the day that many days from the epoch,
      and the day of the year is counted from its 1 January. */
  lemma LocalDay(t: i64)
    requires -67768100567971200 <= t < 67767976233532800
    ensures var tm := LocalTime(Some(t));
            var y := ToInt(tm.year + 1900);
            && 0 <= tm.mon < 12 && 1 <= tm.mday <= MonthLength(y, tm.mon + 1)
            && DaysFromCivil(Date(y, tm.mon + 1, tm.mday)) == t / 86400
            && tm.yday == t / 86400 - DaysFromCivil(Date(y, 1, 1))
  {
    hide CivilFromDays, DaysFromCivil, YearDay, Quot, Rem, WeekDay, ToInt, DayOf, SecondsOf, MonthLength;
    RoundTripBounds(t);
    RoundTripIff(t);
    LocalDate(t);
    DayAndSeconds(t);
    var date := CivilFromDays(DayOf(t));
    CivilThenDays(DayOf(t));
    ToIntProperties(date.year);
    YearDayIsDistance(date);
  }

  /** Without a time, the epoch: Thursday, 1 January 1970, midnight. */
  lemma LocalTimeOfNull()
    ensures LocalTime(None) == LocalTime(Some(0)) == Tm(0, 0, 0, 1, 0, 70, 4, 0)
  {
    hide CivilFromDays, DaysFromCivil, IsDate, Quot, Rem, WeekDay, ToInt, DayOf, SecondsOf, YearDay;
    CivilIsGregorian(0);
    DayAndSeconds(0);
    LocalClock(0);
    ToIntProperties(1970);
    ToIntProperties(70);
    FirstOfYear(1970);
  }

  lemma FirstOfYear(y: int)
    ensures YearDay(Date(y, 1, 1)) == 0
  {
  }
}
