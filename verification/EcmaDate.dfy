// Day arithmetic of ECMAScript dates (ECMA-262, section 21.4.1): the proleptic
// Gregorian calendar on day numbers, time values in milliseconds, and the
// YYYY-MM-DD part of Date.prototype.toISOString.
module EcmaDate {
  import opened Text

  const MS_PER_DAY := 86400000
  const MAX_TIME := 8640000000000000

  // ---------- Year numbers ----------

  predicate Leap(y: int) { y % 4 == 0 && (y % 100 != 0 || y % 400 == 0) }

  function DaysInYear(y: int): int { if Leap(y) then 366 else 365 }

  // Day number of January 1st of year y, counted year by year; day 0 is 1970-01-01.
  function DayFromYear(y: int): int
    decreases if y < 1970 then 1970 - y else y - 1970
  {
    if y == 1970 then 0
    else if y > 1970 then DayFromYear(y - 1) + DaysInYear(y - 1)
    else DayFromYear(y + 1) - DaysInYear(y)
  }

  lemma YearLength(y: int)
    ensures DayFromYear(y + 1) == DayFromYear(y) + DaysInYear(y)
  {
  }

  lemma {:induction false} YearsIncrease(y: int, z: int)
    requires y < z
    ensures DayFromYear(y) < DayFromYear(z)
    decreases z - y
  {
    YearLength(z - 1);
    if y < z - 1 { YearsIncrease(y, z - 1); }
  }

  // The closed formula by which ECMA-262 defines the day number of a year.
  function EcmaDayFromYear(y: int): int {
    365 * (y - 1970) + (y - 1969) / 4 - (y - 1901) / 100 + (y - 1601) / 400
  }

  lemma FourYearStep(y: int)
    ensures (y + 1 - 1969) / 4 == (y - 1969) / 4 + if y % 4 == 0 then 1 else 0
  {
  }

  lemma CenturyStep(y: int)
    ensures (y + 1 - 1901) / 100 == (y - 1901) / 100 + if y % 100 == 0 then 1 else 0
  {
  }

  lemma CycleStep(y: int)
    ensures (y + 1 - 1601) / 400 == (y - 1601) / 400 + if y % 400 == 0 then 1 else 0
  {
  }

  lemma Mod4(q: int, r: int)
    ensures (4 * q + r) % 4 == r % 4
  {
  }

  lemma Mod100(q: int, r: int)
    ensures (100 * q + r) % 100 == r % 100
  {
  }

  lemma Mod400(q: int, r: int)
    ensures (400 * q + r) % 400 == r % 400
  {
  }

  lemma FourHundredthsAreCenturies(y: int)
    ensures y % 400 == 0 ==> y % 100 == 0
    ensures y % 100 == 0 ==> y % 4 == 0
  {
    if y % 400 == 0 { Mod100(4 * (y / 400), 0); }
    if y % 100 == 0 { Mod4(25 * (y / 100), 0); }
  }

  lemma EcmaYearLength(y: int)
    ensures EcmaDayFromYear(y + 1) == EcmaDayFromYear(y) + DaysInYear(y)
  {
    FourYearStep(y);
    CenturyStep(y);
    CycleStep(y);
    FourHundredthsAreCenturies(y);
  }

  // The formula counts the days of the years, for all years.
  lemma {:induction false} EcmaFormula(y: int)
    ensures EcmaDayFromYear(y) == DayFromYear(y)
    decreases if y < 1970 then 1970 - y else y - 1970
  {
    if y > 1970 {
      EcmaFormula(y - 1);
      EcmaYearLength(y - 1);
    } else if y < 1970 {
      EcmaFormula(y + 1);
      EcmaYearLength(y);
    }
  }

  // The year containing a day: the largest y with DayFromYear(y) <= day.
  function YearOf(day: int): (y: int)
    ensures DayFromYear(y) <= day < DayFromYear(y + 1)
  {
    if 0 <= day then YearFrom(day, 1970) else YearUpTo(day, 1969)
  }

  function YearFrom(day: int, y: int): (r: int)
    requires DayFromYear(y) <= day
    ensures DayFromYear(r) <= day < DayFromYear(r + 1)
    decreases day - DayFromYear(y)
  {
    YearLength(y);
    if day < DayFromYear(y + 1) then y else YearFrom(day, y + 1)
  }

  function YearUpTo(day: int, y: int): (r: int)
    requires day < DayFromYear(y + 1)
    ensures DayFromYear(r) <= day < DayFromYear(r + 1)
    decreases DayFromYear(y + 1) - day
  {
    YearLength(y);
    if DayFromYear(y) <= day then y else YearUpTo(day, y - 1)
  }

  lemma YearOfUnique(day: int, y: int)
    requires DayFromYear(y) <= day < DayFromYear(y + 1)
    ensures YearOf(day) == y
  {
    hide YearOf, DayFromYear;
    var z := YearOf(day);
    if z < y {
      if z + 1 < y { YearsIncrease(z + 1, y); }
    } else if y < z {
      if y + 1 < z { YearsIncrease(y + 1, z); }
    }
  }

  // A day lies in year y or later exactly when it is not before y's first day.
  lemma YearFromDay(day: int, y: int)
    ensures YearOf(day) >= y <==> day >= EcmaDayFromYear(y)
  {
    hide YearOf, DayFromYear, EcmaDayFromYear;
    EcmaFormula(y);
    var z := YearOf(day);
    if z < y && z + 1 < y { YearsIncrease(z + 1, y); }
    if y < z { YearsIncrease(y, z); }
  }

  // ---------- Months ----------

  // The Gregorian month lengths; months count from 0.
  function MonthLength(y: int, m: int): (n: int)
    requires 0 <= m < 12
    ensures 28 <= n <= 31
  {
    if m == 1 then (if Leap(y) then 29 else 28)
    else if m in {3, 5, 8, 10} then 30
    else 31
  }

  // Days of year y before month m.
  function MonthStart(y: int, m: int): int
    requires 0 <= m <= 12
  {
    if m == 0 then 0 else MonthStart(y, m - 1) + MonthLength(y, m - 1)
  }

  lemma MonthStarts(y: int)
    ensures var leap := if Leap(y) then 1 else 0;
            && MonthStart(y, 0) == 0 && MonthStart(y, 1) == 31
            && MonthStart(y, 2) == 59 + leap && MonthStart(y, 3) == 90 + leap
            && MonthStart(y, 4) == 120 + leap && MonthStart(y, 5) == 151 + leap
            && MonthStart(y, 6) == 181 + leap && MonthStart(y, 7) == 212 + leap
            && MonthStart(y, 8) == 243 + leap && MonthStart(y, 9) == 273 + leap
            && MonthStart(y, 10) == 304 + leap && MonthStart(y, 11) == 334 + leap
            && MonthStart(y, 12) == 365 + leap
  {
    assert MonthStart(y, 3) == MonthStart(y, 2) + 31;
    assert MonthStart(y, 6) == MonthStart(y, 5) + 30;
    assert MonthStart(y, 9) == MonthStart(y, 8) + 30;
  }

  function MonthWithin(y: int, dayInYear: int): (m: int)
    requires 0 <= dayInYear < DaysInYear(y)
    ensures 0 <= m < 12 && MonthStart(y, m) <= dayInYear < MonthStart(y, m + 1)
  {
    MonthStarts(y);
    var leap := if Leap(y) then 1 else 0;
    if dayInYear < 31 then 0
    else if dayInYear < 59 + leap then 1
    else if dayInYear < 90 + leap then 2
    else if dayInYear < 120 + leap then 3
    else if dayInYear < 151 + leap then 4
    else if dayInYear < 181 + leap then 5
    else if dayInYear < 212 + leap then 6
    else if dayInYear < 243 + leap then 7
    else if dayInYear < 273 + leap then 8
    else if dayInYear < 304 + leap then 9
    else if dayInYear < 334 + leap then 10
    else 11
  }

  lemma {:induction false} MonthStartsIncrease(y: int, m: int, n: int)
    requires 0 <= m < n <= 12
    ensures MonthStart(y, m) + MonthLength(y, m) <= MonthStart(y, n)
  {
    if m + 1 < n { MonthStartsIncrease(y, m, n - 1); }
  }

  // ---------- Civil dates ----------

  datatype Civil = Civil(year: int, month: int, date: int)

  predicate Proper(c: Civil) {
    0 <= c.month < 12 && 1 <= c.date <= MonthLength(c.year, c.month)
  }

  // YearFromTime, MonthFromTime and DateFromTime of a day number.
  function CivilOf(day: int): (c: Civil)
    ensures Proper(c)
  {
    var y := YearOf(day);
    YearLength(y);
    var within := day - DayFromYear(y);
    var m := MonthWithin(y, within);
    Civil(y, m, within - MonthStart(y, m) + 1)
  }

  function DayOf(c: Civil): int
    requires Proper(c)
  {
    DayFromYear(c.year) + MonthStart(c.year, c.month) + c.date - 1
  }

  lemma DayOfCivilOf(day: int)
    ensures DayOf(CivilOf(day)) == day
  {
    YearLength(YearOf(day));
  }

  lemma CivilOfDayOf(c: Civil)
    requires Proper(c)
    ensures CivilOf(DayOf(c)) == c
  {
    var day := DayOf(c);
    MonthStarts(c.year);
    YearLength(c.year);
    if c.month < 11 { MonthStartsIncrease(c.year, c.month, 12); }
    YearOfUnique(day, c.year);
    var m := CivilOf(day).month;
    if m < c.month {
      MonthStartsIncrease(c.year, m, c.month);
    } else if c.month < m {
      MonthStartsIncrease(c.year, c.month, m);
    }
  }

  // The calendar's own rule for the next day, independent of day numbers.
  function NextCivil(c: Civil): (n: Civil)
    requires Proper(c)
    ensures Proper(n)
  {
    if c.date < MonthLength(c.year, c.month) then c.(date := c.date + 1)
    else if c.month < 11 then Civil(c.year, c.month + 1, 1)
    else Civil(c.year + 1, 0, 1)
  }

  lemma NextCivilIsNextDay(c: Civil)
    requires Proper(c)
    ensures DayOf(NextCivil(c)) == DayOf(c) + 1
  {
    YearLength(c.year);
    MonthStarts(c.year);
  }

  // Day numbers enumerate the calendar: consecutive numbers are consecutive dates,
  // across month ends, leap days and year ends, forwards and backwards for ever.
  lemma CivilSteps(day: int)
    ensures CivilOf(day + 1) == NextCivil(CivilOf(day))
  {
    hide CivilOf, DayOf, NextCivil;
    DayOfCivilOf(day);
    NextCivilIsNextDay(CivilOf(day));
    CivilOfDayOf(NextCivil(CivilOf(day)));
  }

  lemma EpochIsDayZero()
    ensures CivilOf(0) == Civil(1970, 0, 1)
  {
    assert DayOf(Civil(1970, 0, 1)) == 0;
    CivilOfDayOf(Civil(1970, 0, 1));
  }

  predicate Before(a: Civil, b: Civil) {
    a.year < b.year || (a.year == b.year && (a.month < b.month || (a.month == b.month && a.date < b.date)))
  }

  lemma DayOfWithinYear(c: Civil)
    requires Proper(c)
    ensures DayFromYear(c.year) <= DayOf(c) < DayFromYear(c.year + 1)
  {
    MonthStarts(c.year);
    YearLength(c.year);
  }

  lemma DayOfIncreases(a: Civil, b: Civil)
    requires Proper(a) && Proper(b) && Before(a, b)
    ensures DayOf(a) < DayOf(b)
  {
    hide DayFromYear;
    if a.year < b.year {
      DayOfWithinYear(a);
      DayOfWithinYear(b);
      if a.year + 1 < b.year { YearsIncrease(a.year + 1, b.year); }
    } else if a.month < b.month {
      MonthStartsIncrease(a.year, a.month, b.month);
    }
  }

  // Days and dates are ordered alike.
  lemma CivilOrder(d: int, e: int)
    ensures Before(CivilOf(d), CivilOf(e)) <==> d < e
  {
    hide CivilOf, DayOf;
    DayOfCivilOf(d);
    DayOfCivilOf(e);
    if Before(CivilOf(d), CivilOf(e)) { DayOfIncreases(CivilOf(d), CivilOf(e)); }
    if Before(CivilOf(e), CivilOf(d)) { DayOfIncreases(CivilOf(e), CivilOf(d)); }
  }

  // ---------- Weekdays ----------

  // 0 is Sunday, as Date.prototype.getUTCDay counts.
  function WeekDay(day: int): (w: int)
    ensures 0 <= w < 7
  {
    (day + 4) % 7
  }

  // Weekdays advance with the days, and 1970-01-01 was a Thursday.
  lemma WeekDaySteps(day: int)
    ensures WeekDay(0) == 4 && WeekDay(day + 1) == (WeekDay(day) + 1) % 7
  {
  }

  // ---------- Time values ----------

  // A time value in milliseconds, or None for NaN.
  type Time = Option<int>

  function TimeClip(t: int): Time { if -MAX_TIME <= t <= MAX_TIME then Some(t) else None }

  function Day(t: int): int { t / MS_PER_DAY }

  function TimeWithinDay(t: int): int { t % MS_PER_DAY }

  function MakeDate(day: int, time: int): int { day * MS_PER_DAY + time }

  // MakeDay of ECMA-262: month may be any integer, date may be any integer.
  function MakeDay(year: int, month: int, date: int): int {
    DayOf(Civil(year + month / 12, month % 12, 1)) + date - 1
  }

  // Date.UTC reads the years 0 to 99 as 1900 to 1999.
  function MakeFullYear(year: int): int { if 0 <= year <= 99 then 1900 + year else year }

  // new Date(Date.UTC(year, month, date))
  function UTC(year: int, month: int, date: int): Time {
    TimeClip(MakeDate(MakeDay(MakeFullYear(year), month, date), 0))
  }

  // The time value after d.setUTCDate(date) on a date whose time value is t.
  function SetUTCDate(t: Time, date: int): Time {
    if t.None? then None
    else
      var c := CivilOf(Day(t.value));
      TimeClip(MakeDate(MakeDay(c.year, c.month, date), TimeWithinDay(t.value)))
  }

  // MakeDay with day-of-month inside the month is that date of that month.
  lemma MakeDayInMonth(year: int, month: int, date: int)
    requires 1 <= date <= MonthLength(year + month / 12, month % 12)
    ensures CivilOf(MakeDay(year, month, date)) == Civil(year + month / 12, month % 12, date)
  {
    hide CivilOf, DayFromYear, MonthStart;
    CivilOfDayOf(Civil(year + month / 12, month % 12, date));
  }

  // "Day 0 of the next month" is the last day of the month, for any month index.
  lemma DayZeroIsLastDay(year: int, month: int)
    ensures var y, m := year + month / 12, month % 12;
            && MakeDay(year, month + 1, 0) == MakeDay(year, month, MonthLength(y, m))
            && CivilOf(MakeDay(year, month + 1, 0)).date == MonthLength(y, m)
  {
    hide CivilOf, DayFromYear, MonthStart;
    var y, m := year + month / 12, month % 12;
    var last := Civil(y, m, MonthLength(y, m));
    assert NextCivil(last) == Civil(year + (month + 1) / 12, (month + 1) % 12, 1);
    NextCivilIsNextDay(last);
    CivilOfDayOf(last);
  }

  lemma MakeDayRollsOver(c: Civil)
    requires Proper(c)
    ensures MakeDay(c.year, c.month, c.date + 1) == DayOf(c) + 1
  {
  }

  lemma NextMidnight(t: int)
    ensures MakeDate(Day(t) + 1, TimeWithinDay(t)) == t + MS_PER_DAY
  {
  }

  // d.setUTCDate(d.getUTCDate() + 1) adds exactly one day and keeps the time of day.
  lemma SetUTCDateAdvances(t: int)
    ensures SetUTCDate(Some(t), CivilOf(Day(t)).date + 1) == TimeClip(t + MS_PER_DAY)
  {
    hide CivilOf, DayOf, MakeDay, MakeDate, Day, TimeWithinDay, TimeClip, Proper;
    var day := Day(t);
    var c := CivilOf(day);
    DayOfCivilOf(day);
    MakeDayRollsOver(c);
    NextMidnight(t);
  }

  // ---------- ISO strings ----------

  predicate FourDigitYear(day: int) { 0 <= YearOf(day) <= 9999 }

  function IsoYear(y: int): string {
    if 0 <= y <= 9999 then Padded(y, 4)
    else if y < 0 then "-" + Padded(-y, 6)
    else "+" + Padded(y, 6)
  }

  function IsoDate(c: Civil): (s: string)
    requires Proper(c)
    ensures |s| == if 0 <= c.year <= 9999 then 10 else 13
  {
    IsoYear(c.year) + "-" + Padded(c.month + 1, 2) + "-" + Padded(c.date, 2)
  }

  // The first ten characters of toISOString() on any instant of the day.
  function Key(day: int): (s: string)
  {
    Slice(IsoDate(CivilOf(day)), 10)
  }

  // The day named by a YYYY-MM-DD string.
  function ParseDay(s: string): Option<int> {
    if |s| == 10 && s[4] == '-' && s[7] == '-' && AllDigits(s[..4]) && AllDigits(s[5..7]) && AllDigits(s[8..]) then
      var c := Civil(Value(s[..4]), Value(s[5..7]) - 1, Value(s[8..]));
      if Proper(c) then Some(DayOf(c)) else None
    else None
  }

  lemma CivilYear(d: int)
    ensures CivilOf(d).year == YearOf(d)
  {
  }

  lemma KeyIsIsoDate(d: int)
    requires FourDigitYear(d)
    ensures Key(d) == IsoDate(CivilOf(d))
  {
    hide Slice, CivilOf, YearOf, IsoDate;
    CivilYear(d);
    SliceIsPrefix(IsoDate(CivilOf(d)), 10);
  }

  lemma IsoDateOrder(a: Civil, b: Civil)
    requires Proper(a) && Proper(b) && 0 <= a.year <= 9999 && 0 <= b.year <= 9999
    ensures Less(IsoDate(a), IsoDate(b)) <==> Before(a, b)
  {
    assert Pow10(2) == 100 && Pow10(4) == 10000;
    var ya, ma, da := Padded(a.year, 4), Padded(a.month + 1, 2), Padded(a.date, 2);
    var yb, mb, db := Padded(b.year, 4), Padded(b.month + 1, 2), Padded(b.date, 2);
    assert IsoDate(a) == ya + "-" + ma + "-" + da && IsoDate(b) == yb + "-" + mb + "-" + db;
    LessDashed(ya, ma, da, yb, mb, db);
    PaddedOrder(a.year, b.year, 4);
    PaddedOrder(a.month + 1, b.month + 1, 2);
    PaddedOrder(a.date, b.date, 2);
  }

  // String order on keys is chronological order, and keys name days uniquely.
  lemma KeyOrder(d: int, e: int)
    requires FourDigitYear(d) && FourDigitYear(e)
    ensures Less(Key(d), Key(e)) <==> d < e
    ensures Key(d) == Key(e) <==> d == e
  {
    KeyIsIsoDate(d);
    KeyIsIsoDate(e);
    CivilOrder(d, e);
    CivilOrder(e, d);
    IsoDateOrder(CivilOf(d), CivilOf(e));
    IsoDateOrder(CivilOf(e), CivilOf(d));
    LessIrreflexive(Key(d));
  }

  // Outside the years 0 to 9999 the key is cut inside the expanded year format: it
  // starts with a sign, so it sorts before every four-digit key and equals none, and
  // the date is cut off, so all days of one month share one key.
  lemma KeyOutsideFourDigitYears(d: int, e: int)
    requires !FourDigitYear(d)
    ensures Key(d)[0] == if YearOf(d) < 0 then '-' else '+'
    ensures FourDigitYear(e) ==> Less(Key(d), Key(e)) && Key(d) != Key(e)
    ensures CivilOf(d).year == CivilOf(e).year && CivilOf(d).month == CivilOf(e).month ==> Key(d) == Key(e)
  {
    hide CivilOf, YearOf, Padded, Slice;
    CivilYear(d);
    CivilYear(e);
    var c, f := CivilOf(d), CivilOf(e);
    SliceIsPrefix(IsoDate(c), 10);
    SliceIsPrefix(IsoDate(f), 10);
    var head := IsoYear(c.year) + "-" + Padded(c.month + 1, 2);
    assert IsoDate(c)[..10] == head;
    if FourDigitYear(e) {
      assert Key(e)[0] == Padded(f.year, 4)[0];
      assert IsDigit(Key(e)[0]);
    } else if f.year == c.year && f.month == c.month {
      assert IsoDate(f)[..10] == head;
    }
  }

  // The days of time values (ECMA-262, section 21.4.1.1).
  predicate ValidDay(d: int) { -100000000 <= d <= 100000000 }

  lemma ClipDay(d: int)
    ensures TimeClip(d * MS_PER_DAY) == if ValidDay(d) then Some(d * MS_PER_DAY) else None
  {
  }

  // They run from 20 April -271821 to 13 September 275760.
  lemma ValidDaysEnd(d: int)
    ensures d == -100000000 ==> CivilOf(d) == Civil(-271821, 3, 20)
    ensures d == 100000000 ==> CivilOf(d) == Civil(275760, 8, 13)
  {
    hide DayFromYear, CivilOf, MonthStart;
    var c := if d < 0 then Civil(-271821, 3, 20) else Civil(275760, 8, 13);
    EcmaFormula(c.year);
    MonthStarts(c.year);
    CivilOfDayOf(c);
  }

  lemma NextInMonth(day: int)
    ensures CivilOf(day + 1).date > 1 || CivilOf(day).date < MonthLength(CivilOf(day).year, CivilOf(day).month) ==>
              CivilOf(day + 1) == CivilOf(day).(date := CivilOf(day).date + 1)
  {
    hide CivilOf;
    CivilSteps(day);
  }

  // Every such day therefore has a different day with the same key, and a valid day has
  // a valid one: a neighbour in the same month.
  lemma KeyCollision(d: int) returns (e: int)
    requires !FourDigitYear(d)
    ensures e != d && Key(e) == Key(d) && (ValidDay(d) ==> ValidDay(e))
  {
    hide CivilOf, Key, FourDigitYear;
    var c := CivilOf(d);
    ValidDaysEnd(d);
    e := if c.date > 1 && (d > 0 || c.date == MonthLength(c.year, c.month)) then d - 1 else d + 1;
    NextInMonth(d - 1);
    NextInMonth(d);
    KeyOutsideFourDigitYears(d, e);
  }

  lemma Fields(a: string, b: string, c: string)
    requires |a| == 4 && |b| == 2
    ensures var s := a + "-" + b + "-" + c;
            s[4] == s[7] == '-' && s[..4] == a && s[5..7] == b && s[8..] == c
  {
  }

  lemma ParseIsoDate(c: Civil)
    requires Proper(c) && 0 <= c.year <= 9999
    ensures ParseDay(IsoDate(c)) == Some(DayOf(c))
  {
    hide DayOf, Padded;
    assert Pow10(2) == 100 && Pow10(4) == 10000;
    ValuePadded(c.year, 4);
    ValuePadded(c.month + 1, 2);
    ValuePadded(c.date, 2);
    Fields(Padded(c.year, 4), Padded(c.month + 1, 2), Padded(c.date, 2));
  }

  // A key spells out its date: year, month counted from 1, and date.
  lemma KeyFields(d: int)
    requires FourDigitYear(d)
    ensures var s, c := Key(d), CivilOf(d);
            && |s| == 10 && s[4] == s[7] == '-' && AllDigits(s[..4]) && AllDigits(s[5..7]) && AllDigits(s[8..])
            && Value(s[..4]) == c.year && Value(s[5..7]) == c.month + 1 && Value(s[8..]) == c.date
  {
    hide CivilOf, Padded, YearOf, Key;
    var c := CivilOf(d);
    CivilYear(d);
    KeyIsIsoDate(d);
    assert Pow10(2) == 100 && Pow10(4) == 10000;
    ValuePadded(c.year, 4);
    ValuePadded(c.month + 1, 2);
    ValuePadded(c.date, 2);
    Fields(Padded(c.year, 4), Padded(c.month + 1, 2), Padded(c.date, 2));
  }

  // Parsing a key gives back its day, and only keys of four-digit years parse.
  lemma ParseDayOfKey(d: int)
    requires FourDigitYear(d)
    ensures ParseDay(Key(d)) == Some(d)
  {
    KeyIsIsoDate(d);
    ParseIsoDate(CivilOf(d));
    DayOfCivilOf(d);
  }

  lemma KeyOfParseDay(s: string)
    ensures ParseDay(s).Some? ==> FourDigitYear(ParseDay(s).value) && Key(ParseDay(s).value) == s
  {
    if ParseDay(s).Some? {
      hide CivilOf, DayOf, YearOf, Key, IsoDate;
      var c := Civil(Value(s[..4]), Value(s[5..7]) - 1, Value(s[8..]));
      FieldsOfIsoDate(s);
      hide Value, Padded, AllDigits;
      CivilOfDayOf(c);
      CivilYear(DayOf(c));
      KeyIsIsoDate(DayOf(c));
    }
  }

  lemma FieldsOfIsoDate(s: string)
    requires |s| == 10 && s[4] == '-' && s[7] == '-'
    requires AllDigits(s[..4]) && AllDigits(s[5..7]) && AllDigits(s[8..])
    requires Proper(Civil(Value(s[..4]), Value(s[5..7]) - 1, Value(s[8..])))
    ensures Value(s[..4]) < 10000
    ensures IsoDate(Civil(Value(s[..4]), Value(s[5..7]) - 1, Value(s[8..]))) == s
  {
    hide Padded, Value, AllDigits, Proper;
    PaddedValue(s[..4]);
    PaddedValue(s[5..7]);
    PaddedValue(s[8..]);
    assert Pow10(4) == 10000;
    assert s == s[..4] + "-" + s[5..7] + "-" + s[8..];
  }

  // ---------- Two-digit years ----------

  // 1900 years are 99137 weeks and one or two days.
  lemma Shift1900(y: int, m: int)
    requires 0 <= m < 12
    ensures DayOf(Civil(y + 1900, m, 1)) - DayOf(Civil(y, m, 1)) in {693960, 693961}
  {
    var k, r := (y - 1) / 400, (y - 1) % 400;
    Years1900(y, k, r);
    MonthStartShift(y, y + 1900, m);
    Leap1900(y, k, r);
  }

  lemma {:induction false} MonthStartShift(y: int, z: int, m: int)
    requires 0 <= m <= 12
    ensures MonthStart(z, m) - MonthStart(y, m) == if m < 2 then 0 else DaysInYear(z) - DaysInYear(y)
  {
    if m > 0 { MonthStartShift(y, z, m - 1); }
  }

  lemma LeapCycle(y: int, k: int, r: int)
    requires y == 400 * k + r
    ensures Leap(y) == Leap(r)
  {
    Mod4(100 * k, r);
    Mod100(4 * k, r);
    Mod400(k, r);
  }

  lemma Leap1900(y: int, k: int, r: int)
    requires y - 1 == 400 * k + r && 0 <= r < 400
    ensures DaysInYear(y + 1900) - DaysInYear(y) == if r == 99 then 1 else if r == 399 then -1 else 0
  {
    LeapCycle(y, k, r + 1);
    LeapCycle(y + 1900, k + 4, r + 301);
    assert r + 301 < 400 || (r + 301 - 400 < 400 && Leap(r + 301) == Leap(r - 99));
  }

  lemma Years1900(y: int, k: int, r: int)
    requires y - 1 == 400 * k + r && 0 <= r < 400
    ensures DayFromYear(y + 1900) - DayFromYear(y) == if r >= 100 then 693961 else 693960
  {
    EcmaFormula(y);
    EcmaFormula(y + 1900);
    assert (y + 1900 - 1969) / 4 == (y - 1969) / 4 + 475;
    assert (y + 1900 - 1901) / 100 == (y - 1901) / 100 + 19;
    assert (y - 1601) / 400 == k - 4;
    assert (y + 1900 - 1601) / 400 == if r >= 100 then k + 1 else k;
  }

  // The shift that Date.UTC applies to the years 0 to 99 moves every month to another weekday.
  lemma MakeFullYearMovesWeekDay(year: int, month: int)
    ensures WeekDay(MakeDay(MakeFullYear(year), month, 1)) == WeekDay(MakeDay(year, month, 1)) <==> !(0 <= year <= 99)
  {
    hide DayOf;
    Shift1900(year + month / 12, month % 12);
    assert (year + 1900) + month / 12 == year + month / 12 + 1900;
  }
}
